/**
 * The few Python string operations the two handlers rely on, over `string`
 * (a sequence of Unicode characters): `str.strip()`, `str.split(sep)` for a
 * one-character separator, `sep.join(parts)` and `str.lower()` (ASCII only).
 */
module Text {

  /** Python's `str.isspace()` for a single character. */
  predicate IsSpace(c: char) {
    || ('\t' <= c <= '\r')              // \t \n \v \f \r
    || ('\U{1C}' <= c <= '\U{1F}')      // file, group, record and unit separators
    || c == ' '
    || c == '\U{85}' || c == '\U{A0}' || c == '\U{1680}'
    || ('\U{2000}' <= c <= '\U{200A}')
    || c == '\U{2028}' || c == '\U{2029}' || c == '\U{202F}'
    || c == '\U{205F}' || c == '\U{3000}'
  }

  predicate AllSpace(s: string) {
    forall k :: 0 <= k < |s| ==> IsSpace(s[k])
  }

  /** `r` is empty, or neither starts nor ends with whitespace. */
  predicate Trimmed(r: string) {
    r == [] || (!IsSpace(r[0]) && !IsSpace(r[|r| - 1]))
  }

  /** `r` sits in `s` at offset `i`, with only whitespace on either side of it. */
  predicate FramedAt(s: string, r: string, i: int) {
    && 0 <= i && i + |r| <= |s|
    && s[i..i + |r|] == r
    && AllSpace(s[..i])
    && AllSpace(s[i + |r|..])
  }

  /** Python's `str.lstrip()`: drops leading whitespace. */
  function StripLeft(s: string): (r: string)
    ensures |r| <= |s|
    ensures r == [] || !IsSpace(r[0])
  {
    if s != [] && IsSpace(s[0]) then StripLeft(s[1..]) else s
  }

  /** `StripLeft` keeps a suffix of its input and drops only whitespace before it. */
  lemma {:induction false} StripLeftFrames(s: string)
    ensures StripLeft(s) == s[|s| - |StripLeft(s)|..]
    ensures AllSpace(s[..|s| - |StripLeft(s)|])
  {
    if s != [] && IsSpace(s[0]) {
      var r := StripLeft(s[1..]);
      StripLeftFrames(s[1..]);
      assert s[..|s| - |r|] == [s[0]] + s[1..][..|s| - 1 - |r|];
    }
  }

  /** Python's `str.rstrip()`: drops trailing whitespace. */
  function StripRight(s: string): (r: string)
    ensures |r| <= |s|
    ensures r == [] || (r[0] == s[0] && !IsSpace(r[|r| - 1]))
  {
    if s != [] && IsSpace(s[|s| - 1]) then StripRight(s[..|s| - 1]) else s
  }

  /** `StripRight` keeps a prefix of its input and drops only whitespace after it. */
  lemma {:induction false} StripRightFrames(s: string)
    ensures StripRight(s) == s[..|StripRight(s)|]
    ensures AllSpace(s[|StripRight(s)|..])
  {
    if s != [] && IsSpace(s[|s| - 1]) {
      var r := StripRight(s[..|s| - 1]);
      StripRightFrames(s[..|s| - 1]);
      assert s[|r|..] == s[..|s| - 1][|r|..] + [s[|s| - 1]];
    }
  }

  /** Python's `str.strip()`: the text between the leading and the trailing whitespace. */
  function Strip(s: string): (r: string)
    ensures |r| <= |s|
    ensures Trimmed(r)
  {
    StripRight(StripLeft(s))
  }

  /** `Strip` keeps a contiguous piece of its input and removes only whitespace around it. */
  lemma StripFramed(s: string)
    ensures exists i :: FramedAt(s, Strip(s), i)
  {
    var l := StripLeft(s);
    var r := Strip(s);
    StripLeftFrames(s);
    StripRightFrames(l);
    assert s[|s| - |l|..][..|r|] == s[|s| - |l|..|s| - |l| + |r|];
    assert l[|r|..] == s[|s| - |l| + |r|..];
    assert FramedAt(s, r, |s| - |l|);
  }

  /** Whatever is framed by whitespace and trimmed is exactly what `Strip` returns. */
  lemma StripUnique(s: string, t: string, i: int)
    requires FramedAt(s, t, i) && Trimmed(t)
    ensures t == Strip(s)
  {
    var r := Strip(s);
    StripFramed(s);
    var j :| FramedAt(s, r, j);
    FramedSpaces(s, t, i);
    FramedSpaces(s, r, j);
    assert t != [] ==> !IsSpace(s[i]) && !IsSpace(s[i + |t| - 1]);
    assert r != [] ==> !IsSpace(s[j]) && !IsSpace(s[j + |r| - 1]);
    assert i == j || t == r == [];
    assert forall k :: 0 <= k < |t| ==> t[k] == r[k];
  }

  /** Spells out `FramedAt` index by index. */
  lemma FramedSpaces(s: string, t: string, i: int)
    requires FramedAt(s, t, i)
    ensures forall k :: 0 <= k < i ==> IsSpace(s[k])
    ensures forall k :: i + |t| <= k < |s| ==> IsSpace(s[k])
    ensures forall k :: 0 <= k < |t| ==> s[i + k] == t[k]
  {
  }

  /** A character absent from the input is absent from its stripped form. */
  lemma StripAvoids(s: string, c: char)
    requires c !in s
    ensures c !in Strip(s)
  {
    var r := Strip(s);
    StripFramed(s);
    var i :| FramedAt(s, r, i);
    FramedSpaces(s, r, i);
    forall k | 0 <= k < |r|
      ensures r[k] != c
    {
      assert r[k] == s[i + k];
    }
  }

  /** Stripping twice is stripping once. */
  lemma StripIdempotent(s: string)
    ensures Strip(Strip(s)) == Strip(s)
  {
  }

  /**
   * Python's `s.split(sep)` for a one-character separator: the pieces between
   * separators, in order; an empty string gives one empty piece.
   */
  function Split(s: string, sep: char): (parts: seq<string>)
    ensures |parts| >= 1
    ensures forall p :: p in parts ==> sep !in p
  {
    if s == [] then [""]
    else
      var rest := Split(s[1..], sep);
      if s[0] == sep then [""] + rest
      else [[s[0]] + rest[0]] + rest[1..]
  }

  /** Python's `sep.join(parts)`. */
  function Join(parts: seq<string>, sep: string): string {
    if |parts| == 0 then ""
    else if |parts| == 1 then parts[0]
    else parts[0] + sep + Join(parts[1..], sep)
  }

  /** Where the `i`-th part starts in `Join(parts, sep)`. */
  function Offset(parts: seq<string>, sep: string, i: nat): nat
    requires i <= |parts|
  {
    if i == 0 then 0 else |parts[0]| + |sep| + Offset(parts[1..], sep, i - 1)
  }

  /** Consecutive offsets are one part and one separator apart. */
  lemma {:induction false} OffsetNext(parts: seq<string>, sep: string, i: nat)
    requires i + 1 < |parts|
    ensures Offset(parts, sep, i + 1) == Offset(parts, sep, i) + |parts[i]| + |sep|
  {
    if i > 0 {
      OffsetNext(parts[1..], sep, i - 1);
    }
  }

  /** Reading `Join(parts, sep)` from the `i`-th offset on gives the join of the parts from `i` on. */
  lemma {:induction false} JoinSuffix(parts: seq<string>, sep: string, i: nat)
    requires i < |parts|
    ensures Offset(parts, sep, i) <= |Join(parts, sep)|
    ensures Join(parts, sep)[Offset(parts, sep, i)..] == Join(parts[i..], sep)
  {
    if i == 0 {
      assert parts[0..] == parts;
    } else {
      var j := Join(parts, sep);
      var tail := parts[1..];
      var k := |parts[0]| + |sep|;
      assert j[k..] == Join(tail, sep) by {
        assert j == parts[0] + sep + Join(tail, sep);
      }
      JoinSuffix(tail, sep, i - 1);
      assert tail[i - 1..] == parts[i..];
      var o := Offset(tail, sep, i - 1);
      assert j[k + o..] == j[k..][o..];
    }
  }

  /**
   * `Join` places every part, in its original order, at its offset, with exactly
   * `sep` between consecutive parts and nothing after the last one.
   */
  lemma JoinPlaces(parts: seq<string>, sep: string, i: nat)
    requires i < |parts|
    ensures Offset(parts, sep, i) + |parts[i]| <= |Join(parts, sep)|
    ensures Join(parts, sep)[Offset(parts, sep, i)..Offset(parts, sep, i) + |parts[i]|] == parts[i]
    ensures i + 1 < |parts| ==> Offset(parts, sep, i + 1) == Offset(parts, sep, i) + |parts[i]| + |sep|
    ensures i + 1 < |parts| ==> Offset(parts, sep, i + 1) <= |Join(parts, sep)|
    ensures i + 1 < |parts| ==>
      Join(parts, sep)[Offset(parts, sep, i) + |parts[i]|..Offset(parts, sep, i + 1)] == sep
    ensures i + 1 == |parts| ==> Offset(parts, sep, i) + |parts[i]| == |Join(parts, sep)|
  {
    var j := Join(parts, sep);
    var o := Offset(parts, sep, i);
    var p := parts[i];
    JoinSuffix(parts, sep, i);
    var rest := parts[i..];
    assert rest[0] == p;
    if i + 1 < |parts| {
      OffsetNext(parts, sep, i);
      var suffix := j[o..];
      assert suffix == p + sep + Join(parts[i + 1..], sep) by {
        assert rest[1..] == parts[i + 1..];
      }
      assert j[o..o + |p|] == p by {
        assert j[o..o + |p|] == suffix[..|p|];
      }
      assert j[o + |p|..o + |p| + |sep|] == sep by {
        assert j[o + |p|..o + |p| + |sep|] == suffix[|p|..|p| + |sep|];
      }
    } else {
      assert Join(rest, sep) == p;
      assert j[o..o + |p|] == j[o..];
    }
  }

  /** A character absent from the parts and from the separator is absent from the join. */
  lemma {:induction false} JoinAvoids(parts: seq<string>, sep: string, c: char)
    requires c !in sep
    requires forall p :: p in parts ==> c !in p
    ensures c !in Join(parts, sep)
  {
    if |parts| > 1 {
      JoinAvoids(parts[1..], sep, c);
      assert parts[0] in parts;
    } else if |parts| == 1 {
      assert parts[0] in parts;
    }
  }

  /** Splitting and re-joining with the same separator gives back the text. */
  lemma {:induction false} JoinSplit(s: string, sep: char)
    ensures Join(Split(s, sep), [sep]) == s
  {
    if s != [] {
      var rest := Split(s[1..], sep);
      JoinSplit(s[1..], sep);
      if s[0] == sep {
        assert Join([""] + rest, [sep]) == "" + [sep] + Join(rest, [sep]);
      } else {
        var parts := [[s[0]] + rest[0]] + rest[1..];
        if |rest| == 1 {
          assert parts == [[s[0]] + rest[0]];
        } else {
          assert parts[1..] == rest[1..];
          assert Join(rest, [sep]) == rest[0] + [sep] + Join(rest[1..], [sep]);
        }
      }
    }
  }

  /** Splitting text that begins with a separator-free piece `p`. */
  lemma {:induction false} SplitPrefix(p: string, t: string, sep: char)
    requires sep !in p
    ensures Split(p + t, sep) == [p + Split(t, sep)[0]] + Split(t, sep)[1..]
  {
    if p != [] {
      SplitPrefix(p[1..], t, sep);
      var u, st := p + t, Split(t, sep);
      assert u[0] == p[0] && p[0] in p && u[1..] == p[1..] + t;
      var rest := Split(u[1..], sep);
      assert rest[0] == p[1..] + st[0] && rest[1..] == st[1..];
      assert [u[0]] + rest[0] == p + st[0];
    } else {
      assert p + t == t && p + Split(t, sep)[0] == Split(t, sep)[0];
      assert [Split(t, sep)[0]] + Split(t, sep)[1..] == Split(t, sep);
    }
  }

  /**
   * Joining separator-free parts and splitting again gives back the parts;
   * with `JoinSplit` this makes `Split` and `Join` mutual inverses.
   */
  lemma {:induction false} SplitJoin(parts: seq<string>, sep: char)
    requires |parts| >= 1
    requires forall p :: p in parts ==> sep !in p
    ensures Split(Join(parts, [sep]), sep) == parts
  {
    assert parts[0] in parts;
    if |parts| == 1 {
      SplitPrefix(parts[0], "", sep);
      assert parts[0] + "" == parts[0];
    } else {
      var tail := parts[1..];
      SplitJoin(tail, sep);
      var t := [sep] + Join(tail, [sep]);
      assert Join(parts, [sep]) == parts[0] + t;
      SplitPrefix(parts[0], t, sep);
      assert t[1..] == Join(tail, [sep]);
      assert Split(t, sep) == [""] + tail;
      assert parts[0] + "" == parts[0];
      assert parts == [parts[0]] + tail;
    }
  }

  /** Python's `str.lower()` on one character, for the ASCII letters. */
  function LowerChar(c: char): char {
    if 'A' <= c <= 'Z' then (c as int + 32) as char else c
  }

  /** Python's `str.lower()`, restricted to ASCII letters. */
  function Lower(s: string): (r: string)
    ensures |r| == |s|
    ensures forall k :: 0 <= k < |r| ==> !('A' <= r[k] <= 'Z')
    ensures forall k :: 0 <= k < |r| ==> r[k] == s[k] || ('A' <= s[k] <= 'Z' && r[k] as int == s[k] as int + 32)
  {
    seq(|s|, k requires 0 <= k < |s| => LowerChar(s[k]))
  }

  /** Lower-casing is idempotent: a lower-cased string is already canonical. */
  lemma LowerIdempotent(s: string)
    ensures Lower(Lower(s)) == Lower(s)
  {
  }

  predicate StartsWith(s: string, prefix: string) {
    |prefix| <= |s| && s[..|prefix|] == prefix
  }
}
