/** Rust's `std::cmp::Ordering` and the lexicographic order Rust's `Ord` gives
    to `str`/`String`.  Rust compares strings byte by byte on their UTF-8
    encoding, which orders them exactly as comparing their code points one by
    one; a `string` here is a sequence of code points.

    Dafny's own `<` on sequences means "proper prefix", so the order is
    written out and proved to be a total order. */
module Ordering {

  /** `std::cmp::Ordering`. */
  datatype Cmp = Less | Equal | Greater {

    /** `Ordering::reverse`: the answer to the question asked the other way round. */
    function Reverse(): Cmp {
      match this
      case Less => Greater
      case Equal => Equal
      case Greater => Less
    }

    /** `Ordering::then`: a tie on this key is broken by `next`. */
    function Then(next: Cmp): Cmp {
      if Equal? then next else this
    }
  }

  /** `Ord for i64`. */
  function CmpInt(a: int, b: int): Cmp {
    if a < b then Less else if a == b then Equal else Greater
  }

  /** Reference definition of "a sorts strictly before b": a is a proper
      prefix of b, or at the first position where they differ a has the
      smaller character. */
  ghost predicate LexLess(a: string, b: string) {
    || (|a| < |b| && a == b[..|a|])
    || exists k :: 0 <= k < |a| && k < |b| && a[..k] == b[..k] && a[k] < b[k]
  }

  /** `Ord for str`: the first differing position decides; when one string is
      a prefix of the other, the shorter one is smaller.  The answer agrees
      with the reference order in all three cases. */
  function CmpStr(a: string, b: string): (r: Cmp)
    ensures r == Equal <==> a == b
    ensures r == Less <==> LexLess(a, b)
    ensures r == Greater <==> LexLess(b, a)
    decreases |a|
  {
    if |a| == 0 then
      if |b| == 0 then Equal
      else assert a == b[..|a|]; Less
    else if |b| == 0 then
      assert b == a[..|b|]; Greater
    else if a[0] < b[0] then
      assert a[..0] == b[..0];
      NotLexLessAtHead(b, a);
      Less
    else if b[0] < a[0] then
      assert b[..0] == a[..0];
      NotLexLessAtHead(a, b);
      Greater
    else
      LexLessTail(a, b);
      LexLessTail(b, a);
      assert a == [a[0]] + a[1..] && b == [b[0]] + b[1..];
      CmpStr(a[1..], b[1..])
  }

  /** A string whose first character is larger does not sort first. */
  lemma NotLexLessAtHead(a: string, b: string)
    requires |a| > 0 && |b| > 0 && b[0] < a[0]
    ensures !LexLess(a, b)
  {
  }

  /** Strings that start with the same character are ordered by their tails. */
  lemma LexLessTail(a: string, b: string)
    requires |a| > 0 && |b| > 0 && a[0] == b[0]
    ensures LexLess(a, b) <==> LexLess(a[1..], b[1..])
  {
    if LexLess(a, b) {
      LexLessDropHead(a, b);
    }
    if LexLess(a[1..], b[1..]) {
      LexLessAddHead(a, b);
    }
  }

  lemma LexLessDropHead(a: string, b: string)
    requires |a| > 0 && |b| > 0 && a[0] == b[0]
    requires LexLess(a, b)
    ensures LexLess(a[1..], b[1..])
  {
    var a', b' := a[1..], b[1..];
    if |a| < |b| && a == b[..|a|] {
      assert a' == b'[..|a'|];
    } else {
      var k :| 0 <= k < |a| && k < |b| && a[..k] == b[..k] && a[k] < b[k];
      assert k > 0;
      assert a'[..k-1] == a[..k][1..] && b'[..k-1] == b[..k][1..];
      assert a'[k-1] < b'[k-1];
    }
  }

  lemma LexLessAddHead(a: string, b: string)
    requires |a| > 0 && |b| > 0 && a[0] == b[0]
    requires LexLess(a[1..], b[1..])
    ensures LexLess(a, b)
  {
    var a', b' := a[1..], b[1..];
    if |a'| < |b'| && a' == b'[..|a'|] {
      assert a == [a[0]] + a' && b[..|a|] == [b[0]] + b'[..|a'|];
    } else {
      var k :| 0 <= k < |a'| && k < |b'| && a'[..k] == b'[..k] && a'[k] < b'[k];
      assert a[..k+1] == [a[0]] + a'[..k] && b[..k+1] == [b[0]] + b'[..k];
      assert a[k+1] < b[k+1];
    }
  }

  /** Strict order is transitive. */
  lemma {:induction false} CmpStrTransitive(a: string, b: string, c: string)
    requires CmpStr(a, b) == Less && CmpStr(b, c) == Less
    ensures CmpStr(a, c) == Less
    decreases |a|
  {
    if |a| > 0 && |b| > 0 && |c| > 0 && a[0] == b[0] == c[0] {
      CmpStrTransitive(a[1..], b[1..], c[1..]);
    }
  }
}
