/**
 * The two string operations the search box relies on: `str.lower()` and the
 * substring test `needle in haystack`. Lowercasing is modelled for ASCII only:
 * letters 'A'..'Z' map to 'a'..'z' and every other character is kept, whereas
 * Python also folds non-ASCII letters.
 */
module Text {

  predicate IsAsciiUpper(c: char) {
    'A' <= c <= 'Z'
  }

  /** ASCII lowercasing of one character. */
  function LowerChar(c: char): (r: char)
    ensures IsAsciiUpper(c) ==> r as int == c as int + 32
    ensures !IsAsciiUpper(c) ==> r == c
    ensures !IsAsciiUpper(r)
  {
    if IsAsciiUpper(c) then (c as int + 32) as char else c
  }

  /** `s.lower()` restricted to ASCII: same length, each character lowered. */
  function Lower(s: string): (r: string)
    ensures |r| == |s|
    ensures forall i :: 0 <= i < |s| ==> r[i] == LowerChar(s[i])
  {
    seq(|s|, i requires 0 <= i < |s| => LowerChar(s[i]))
  }

  /** Lowering twice is lowering once. */
  lemma LowerIdempotent(s: string)
    ensures Lower(Lower(s)) == Lower(s)
  {
  }

  /** `needle` occurs in `hay` starting at position `i`. */
  ghost predicate OccursAt(hay: string, needle: string, i: int) {
    0 <= i && i + |needle| <= |hay| && hay[i..i + |needle|] == needle
  }

  /** Python's `needle in hay` on strings: a contiguous occurrence exists. */
  function Contains(hay: string, needle: string): (r: bool)
    ensures r <==> exists i :: OccursAt(hay, needle, i)
    decreases |hay|
  {
    if |needle| > |hay| then false
    else if hay[..|needle|] == needle then
      assert OccursAt(hay, needle, 0);
      true
    else
      var rest := Contains(hay[1..], needle);
      ShiftOccurrence(hay, needle);
      rest
  }

  /** An occurrence in `hay[1..]` is an occurrence in `hay` one place later, and back. */
  lemma ShiftOccurrence(hay: string, needle: string)
    requires |hay| > 0
    requires !OccursAt(hay, needle, 0)
    ensures (exists i :: OccursAt(hay[1..], needle, i)) <==> (exists i :: OccursAt(hay, needle, i))
  {
    if exists i :: OccursAt(hay[1..], needle, i) {
      var i :| OccursAt(hay[1..], needle, i);
      assert hay[i + 1..i + 1 + |needle|] == hay[1..][i..i + |needle|];
      assert OccursAt(hay, needle, i + 1);
    }
    if exists i :: OccursAt(hay, needle, i) {
      var i :| OccursAt(hay, needle, i);
      assert i != 0;
      assert hay[1..][i - 1..i - 1 + |needle|] == hay[i..i + |needle|];
      assert OccursAt(hay[1..], needle, i - 1);
    }
  }

  /** Lowering commutes with taking a slice. */
  lemma LowerSlice(s: string, i: nat, j: nat)
    requires i <= j <= |s|
    ensures Lower(s)[i..j] == Lower(s[i..j])
  {
  }

  /** The window of `hay` at position `i` spells `needle` up to ASCII case. */
  ghost predicate OccursIgnoringCaseAt(hay: string, needle: string, i: int) {
    0 <= i && i + |needle| <= |hay| && Lower(hay[i..i + |needle|]) == Lower(needle)
  }

  /**
   * The lowered needle occurs in the lowered haystack exactly when some window
   * of the haystack spells the needle up to ASCII case.
   */
  lemma ContainsLowered(hay: string, needle: string)
    ensures Contains(Lower(hay), Lower(needle)) <==> exists i :: OccursIgnoringCaseAt(hay, needle, i)
  {
    var lh, ln := Lower(hay), Lower(needle);
    if Contains(lh, ln) {
      var i :| OccursAt(lh, ln, i);
      LowerSlice(hay, i, i + |needle|);
      assert OccursIgnoringCaseAt(hay, needle, i);
    }
    if exists i :: OccursIgnoringCaseAt(hay, needle, i) {
      var i :| OccursIgnoringCaseAt(hay, needle, i);
      LowerSlice(hay, i, i + |needle|);
      assert OccursAt(lh, ln, i);
    }
  }

  /** The empty string occurs in every string. */
  lemma EmptyContained(hay: string)
    ensures Contains(hay, "")
  {
    assert OccursAt(hay, "", 0);
  }
}
