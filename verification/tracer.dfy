/** The word tests of the `Tracer` trait's default methods, applied to a
    record's message: `str::contains`, `includes` and `excludes`. */
module Tracer {
  import opened LogLines

  /** `str::starts_with`. */
  predicate StartsWith(s: string, w: string) {
    |w| <= |s| && s[..|w|] == w
  }

  /** `w` occurs in `s` starting at position `i`. */
  ghost predicate OccursAt(s: string, w: string, i: int) {
    0 <= i && i + |w| <= |s| && s[i..i + |w|] == w
  }

  /** A word occurs in a non-empty text exactly when the text starts with it
      or it occurs in the text's tail. */
  lemma OccursShift(s: string, w: string)
    requires |s| > 0
    ensures (exists i :: OccursAt(s, w, i)) <==> StartsWith(s, w) || exists i :: OccursAt(s[1..], w, i)
  {
    if StartsWith(s, w) {
      assert OccursAt(s, w, 0);
    }
    if exists i :: OccursAt(s[1..], w, i) {
      var i :| OccursAt(s[1..], w, i);
      assert s[i + 1..i + 1 + |w|] == s[1..][i..i + |w|];
      assert OccursAt(s, w, i + 1);
    }
    if exists i :: OccursAt(s, w, i) {
      var i :| OccursAt(s, w, i);
      if i != 0 {
        assert s[1..][i - 1..i - 1 + |w|] == s[i..i + |w|];
        assert OccursAt(s[1..], w, i - 1);
      }
    }
  }

  /** `str::contains` with a string pattern: `w` is found at some position of
      `s`, tried from the left.  It holds exactly when `w` occurs somewhere in
      `s`; the empty word is contained in every string. */
  function Contains(s: string, w: string): (b: bool)
    ensures b <==> exists i :: OccursAt(s, w, i)
    decreases |s|
  {
    if |s| == 0 then
      assert StartsWith(s, w) ==> OccursAt(s, w, 0);
      StartsWith(s, w)
    else
      OccursShift(s, w);
      StartsWith(s, w) || Contains(s[1..], w)
  }

  /** `Tracer::includes`: every word occurs in the message
      (`Iterator::all`, so true for no words). */
  function Includes(line: LogLine, words: seq<string>): (b: bool)
    ensures b <==> forall w :: w in words ==> exists i :: OccursAt(line.message, w, i)
  {
    forall w :: w in words ==> Contains(line.message, w)
  }

  /** `Tracer::excludes`: some word occurs in the message
      (`Iterator::any`, so false for no words). */
  function Excludes(line: LogLine, words: seq<string>): (b: bool)
    ensures b <==> exists w :: w in words && exists i :: OccursAt(line.message, w, i)
  {
    exists w :: w in words && Contains(line.message, w)
  }
}
