/**
 * The parts of `java.lang.String` and `java.util.regex` that the filter relies on:
 * the character classes `\s` and `.`, `String.contains`, and `String.split` with a
 * one-character separator that is not a regular-expression metacharacter.
 */
module JavaStrings {

  /** The regular-expression class `\s`: space, tab, line feed, vertical tab, form feed, carriage return. */
  predicate IsRegexWhitespace(c: char) {
    c == ' ' || c == '\t' || c == '\n' || c == '\U{0B}' || c == '\U{0C}' || c == '\r'
  }

  /** The characters the regular-expression `.` does not match when DOTALL is off. */
  predicate IsLineTerminator(c: char) {
    c == '\n' || c == '\r' || c == '\U{85}' || c == '\U{2028}' || c == '\U{2029}'
  }

  /** `t` occurs in `s` starting at index `i`. */
  predicate OccursAt(s: string, t: string, i: int) {
    0 <= i && i + |t| <= |s| && s[i..i + |t|] == t
  }

  /** A character outside the Basic Multilingual Plane, which UTF-16 stores as a surrogate pair. */
  predicate IsSupplementary(c: char) {
    c as int >= 0x1_0000
  }

  /**
   * `String.length()`: the number of UTF-16 code units, so a supplementary
   * character counts twice.
   */
  function JavaLength(s: string): (n: nat) {
    if s == [] then 0 else (if IsSupplementary(s[0]) then 2 else 1) + JavaLength(s[1..])
  }

  /** Every character takes one or two code units. */
  lemma {:induction false} JavaLengthBounds(s: string)
    ensures |s| <= JavaLength(s) <= 2 * |s|
  {
    if s != [] {
      JavaLengthBounds(s[1..]);
    }
  }

  /** The UTF-16 length is the number of characters exactly when none is supplementary. */
  lemma {:induction false} JavaLengthWithoutSupplementary(s: string)
    ensures JavaLength(s) == |s| <==> forall i :: 0 <= i < |s| ==> !IsSupplementary(s[i])
  {
    if s != [] {
      JavaLengthWithoutSupplementary(s[1..]);
      JavaLengthBounds(s[1..]);
      assert forall i :: 1 <= i < |s| ==> s[i] == s[1..][i - 1];
    }
  }

  /** The UTF-16 length of a concatenation is the sum of the lengths. */
  lemma {:induction false} JavaLengthOfConcat(a: string, b: string)
    ensures JavaLength(a + b) == JavaLength(a) + JavaLength(b)
  {
    if a != [] {
      assert (a + b)[0] == a[0] && (a + b)[1..] == a[1..] + b;
      JavaLengthOfConcat(a[1..], b);
    } else {
      assert a + b == b;
    }
  }

  /** `String.contains`. */
  predicate Contains(s: string, t: string) {
    exists i :: 0 <= i <= |s| - |t| && OccursAt(s, t, i)
  }

  lemma ContainsItself(s: string)
    ensures Contains(s, s)
  {
    assert OccursAt(s, s, 0);
  }

  /** A string is never contained in a shorter one. */
  lemma NotContainedInShorter(s: string, t: string)
    requires |s| < |t|
    ensures !Contains(s, t)
  {
  }

  /** Joins segments with `/` between them (the inverse of `Segments`). */
  function Join(parts: seq<string>): (s: string)
    requires |parts| >= 1
    decreases |parts|
  {
    if |parts| == 1 then parts[0] else parts[0] + "/" + Join(parts[1..])
  }

  /**
   * Every `/`-separated piece of `s`, empty ones included: `"a//b/"` gives
   * `["a", "", "b", ""]`.
   */
  function Segments(s: string): (parts: seq<string>)
    ensures |parts| >= 1
    ensures forall i :: 0 <= i < |parts| ==> '/' !in parts[i]
    ensures Join(parts) == s
  {
    if s == [] then [""]
    else
      var rest := Segments(s[1..]);
      if s[0] == '/' then
        assert s == "/" + s[1..];
        [""] + rest
      else
        var parts := [[s[0]] + rest[0]] + rest[1..];
        assert parts[1..] == rest[1..];
        assert Join(parts) == s by {
          if |rest| == 1 {
          } else {
            assert Join(rest) == rest[0] + "/" + Join(rest[1..]);
            assert s == [s[0]] + s[1..];
          }
        }
        parts
  }

  lemma {:induction false} SegmentsWithoutSeparator(s: string)
    requires '/' !in s
    ensures Segments(s) == [s]
  {
    if s != [] {
      SegmentsWithoutSeparator(s[1..]);
      assert [s[0]] + s[1..] == s;
    }
  }

  /** A piece without `/` in front of `s` becomes part of the first segment of `s`. */
  lemma {:induction false} SegmentsOfPrefix(w: string, s: string)
    requires '/' !in w
    ensures Segments(w + s) == [w + Segments(s)[0]] + Segments(s)[1..]
  {
    if w == [] {
      var parts := Segments(s);
      assert w + s == s;
      assert w + parts[0] == parts[0];
      assert [parts[0]] + parts[1..] == parts;
    } else {
      var first := Segments(s)[0];
      var t := w + s;
      assert t[0] == w[0] && t[1..] == w[1..] + s;
      var rest := Segments(w[1..] + s);
      assert Segments(t) == [[w[0]] + rest[0]] + rest[1..];
      SegmentsOfPrefix(w[1..], s);
      assert rest[0] == w[1..] + first && rest[1..] == Segments(s)[1..];
      assert [w[0]] + (w[1..] + first) == w + first;
    }
  }

  /** `Segments` undoes `Join`: splitting joined segments gives them back. */
  lemma {:induction false} SegmentsOfJoin(parts: seq<string>)
    requires |parts| >= 1
    requires forall i :: 0 <= i < |parts| ==> '/' !in parts[i]
    ensures Segments(Join(parts)) == parts
  {
    if |parts| == 1 {
      SegmentsWithoutSeparator(parts[0]);
    } else {
      var tail := Join(parts[1..]);
      assert Segments("/" + tail) == [""] + parts[1..] by {
        SegmentsOfJoin(parts[1..]);
        assert ("/" + tail)[1..] == tail;
      }
      assert Join(parts) == parts[0] + ("/" + tail);
      SegmentsOfPrefix(parts[0], "/" + tail);
      assert parts[0] + "" == parts[0];
      assert [parts[0]] + parts[1..] == parts;
    }
  }

  /** Joined segments start with the first segment. */
  lemma JoinStartsWithFirst(parts: seq<string>)
    requires |parts| >= 1
    ensures |parts[0]| <= |Join(parts)| && Join(parts)[..|parts[0]|] == parts[0]
  {
  }

  /** Two or more joined segments contain the separator. */
  lemma JoinHasSeparator(parts: seq<string>)
    requires |parts| >= 2
    ensures '/' in Join(parts)
  {
    assert Join(parts)[|parts[0]|] == '/';
  }

  /** Drops the empty strings at the end of `parts`, as `String.split` does. */
  function DropTrailingEmpty(parts: seq<string>): (r: seq<string>)
    ensures |r| <= |parts| && forall i :: 0 <= i < |r| ==> r[i] == parts[i]
    ensures forall i :: |r| <= i < |parts| ==> parts[i] == ""
    ensures r == [] || r[|r| - 1] != ""
  {
    if parts != [] && parts[|parts| - 1] == "" then DropTrailingEmpty(parts[..|parts| - 1]) else parts
  }

  /**
   * `s.split("/")`: a string without `/` comes back whole (even the empty string);
   * otherwise its segments, with the empty ones at the end removed.
   */
  function Split(s: string): (parts: seq<string>)
  {
    if '/' !in s then [s] else DropTrailingEmpty(Segments(s))
  }
}
