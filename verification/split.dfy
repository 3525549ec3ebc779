/** `split_keep`: cuts a text around the matches of a delimiter pattern and
    keeps each match as a segment of its own.

    The regular-expression engine is not modelled.  What `split_keep` reads
    from it, the sequence `str::match_indices` yields, is an input here: one
    `Match` per occurrence, each a start position and a length, in ascending
    order, not overlapping, and inside the text. */
module Split {

  datatype Match = Match(start: nat, len: nat) {
    function End(): nat { start + len }
  }

  /** What `match_indices` guarantees of the matches it yields. */
  predicate WellFormed(ms: seq<Match>, n: nat) {
    && (forall i :: 0 <= i < |ms| ==> ms[i].End() <= n)
    && (forall i, j :: 0 <= i < j < |ms| ==> ms[i].End() <= ms[j].start)
  }

  /** One segment of the output, as a span `[lo, hi)` of the text: the text
      between two matches, or a match. */
  datatype Piece = Gap(lo: nat, hi: nat) | Hit(lo: nat, hi: nat)

  /** Where the text after the matches seen so far begins (`last`). */
  function EndOf(ms: seq<Match>): nat {
    if |ms| == 0 then 0 else ms[|ms| - 1].End()
  }

  /** The segments one match adds: the text since `last`, when there is any,
      then the match itself. */
  function Step(last: nat, m: Match): seq<Piece> {
    (if last != m.start then [Gap(last, m.start)] else []) + [Hit(m.start, m.End())]
  }

  /** The segments produced by the loop over `ms`. */
  function Body(ms: seq<Match>): seq<Piece> {
    if |ms| == 0 then []
    else Body(ms[..|ms| - 1]) + Step(EndOf(ms[..|ms| - 1]), ms[|ms| - 1])
  }

  /** All segments `split_keep` produces for a text of length `n`: those of the
      loop, then the rest of the text after the last match, when there is any. */
  function Layout(ms: seq<Match>, n: nat): seq<Piece> {
    Body(ms) + (if EndOf(ms) < n then [Gap(EndOf(ms), n)] else [])
  }

  /** The text of a span (a span outside the text has none). */
  function Slice(text: string, p: Piece): string {
    if p.lo <= p.hi <= |text| then text[p.lo..p.hi] else []
  }

  /** Every segment is a span inside the text, and no gap segment is empty. */
  ghost predicate WellPlaced(ps: seq<Piece>, n: nat) {
    forall i :: 0 <= i < |ps| ==> ps[i].lo <= ps[i].hi <= n && (ps[i].Gap? ==> ps[i].lo < ps[i].hi)
  }

  lemma WellPlacedAppend(a: seq<Piece>, b: seq<Piece>, n: nat)
    requires WellPlaced(a, n) && WellPlaced(b, n)
    ensures WellPlaced(a + b, n)
  {
  }

  /** The text of each segment. */
  function Render(text: string, ps: seq<Piece>): seq<string> {
    seq(|ps|, i requires 0 <= i < |ps| => Slice(text, ps[i]))
  }

  /** Concatenation of segments. */
  function Concat(ss: seq<string>): string {
    if |ss| == 0 then [] else Concat(ss[..|ss| - 1]) + ss[|ss| - 1]
  }

  lemma {:induction false} ConcatAppend(a: seq<string>, b: seq<string>)
    ensures Concat(a + b) == Concat(a) + Concat(b)
    decreases |b|
  {
    if |b| > 0 {
      var ab := a + b;
      assert ab[..|ab| - 1] == a + b[..|b| - 1];
      assert ab[|ab| - 1] == b[|b| - 1];
      ConcatAppend(a, b[..|b| - 1]);
    } else {
      assert a + b == a;
    }
  }

  /** The matches, as `Match` values, among the segments, in order. */
  function HitsOf(ps: seq<Piece>): seq<Match> {
    if |ps| == 0 then []
    else
      var last := ps[|ps| - 1];
      HitsOf(ps[..|ps| - 1]) + (if last.Hit? && last.lo <= last.hi then [Match(last.lo, last.hi - last.lo)] else [])
  }

  lemma {:induction false} HitsOfAppend(a: seq<Piece>, b: seq<Piece>)
    ensures HitsOf(a + b) == HitsOf(a) + HitsOf(b)
    decreases |b|
  {
    if |b| > 0 {
      var ab := a + b;
      assert ab[..|ab| - 1] == a + b[..|b| - 1];
      assert ab[|ab| - 1] == b[|b| - 1];
      HitsOfAppend(a, b[..|b| - 1]);
    } else {
      assert a + b == a;
    }
  }

  lemma HitsOfSingle(p: Piece)
    ensures HitsOf([p]) == if p.Hit? && p.lo <= p.hi then [Match(p.lo, p.hi - p.lo)] else []
  {
  }

  /** The segments one match adds lie inside the text, hold no empty gap, and
      hold that match and no other. */
  lemma StepShape(last: nat, m: Match, n: nat)
    requires last <= m.start && m.start + m.len <= n
    ensures WellPlaced(Step(last, m), n)
    ensures HitsOf(Step(last, m)) == [m]
  {
    var hit := Hit(m.start, m.End());
    HitsOfSingle(hit);
    if last != m.start {
      var gap := Gap(last, m.start);
      HitsOfSingle(gap);
      HitsOfAppend([gap], [hit]);
      assert Step(last, m) == [gap, hit];
    } else {
      assert Step(last, m) == [hit];
    }
  }

  /** The loop's segments lie inside the text and never hold an empty gap. */
  lemma {:induction false} BodyPlaced(ms: seq<Match>, n: nat)
    requires WellFormed(ms, n)
    ensures EndOf(ms) <= n
    ensures WellPlaced(Body(ms), n)
    decreases |ms|
  {
    if |ms| > 0 {
      var k := |ms| - 1;
      var init, m := ms[..k], ms[k];
      WellFormedPrefix(ms, k, n);
      BodyPlaced(init, n);
      EndOfBefore(ms, k, n);
      StepShape(EndOf(init), m, n);
      WellPlacedAppend(Body(init), Step(EndOf(init), m), n);
    }
  }

  /** The match segments among the loop's segments are the matches, in order. */
  lemma {:induction false} BodyHits(ms: seq<Match>, n: nat)
    requires WellFormed(ms, n)
    ensures HitsOf(Body(ms)) == ms
    decreases |ms|
  {
    if |ms| > 0 {
      var k := |ms| - 1;
      WellFormedPrefix(ms, k, n);
      BodyHits(ms[..k], n);
      EndOfBefore(ms, k, n);
      StepShape(EndOf(ms[..k]), ms[k], n);
      HitsOfAppend(Body(ms[..k]), Step(EndOf(ms[..k]), ms[k]));
      SplitLast(ms);
    }
  }

  lemma SplitLast(ms: seq<Match>)
    requires |ms| > 0
    ensures ms == ms[..|ms| - 1] + [ms[|ms| - 1]]
  {
  }

  lemma WellFormedPrefix(ms: seq<Match>, k: nat, n: nat)
    requires WellFormed(ms, n) && k <= |ms|
    ensures WellFormed(ms[..k], n)
  {
  }

  /** The segments of `split_keep` lie inside the text, no gap segment is
      empty, and the match segments are exactly the matches, in order. */
  lemma LayoutShape(ms: seq<Match>, n: nat)
    requires WellFormed(ms, n)
    ensures WellPlaced(Layout(ms, n), n)
    ensures HitsOf(Layout(ms, n)) == ms
  {
    BodyPlaced(ms, n);
    BodyHits(ms, n);
    var last := EndOf(ms);
    var tail := if last < n then [Gap(last, n)] else [];
    WellPlacedAppend(Body(ms), tail, n);
    HitsOfAppend(Body(ms), tail);
    if last < n {
      HitsOfSingle(Gap(last, n));
    }
  }

  /** `split_keep`: walks the matches in order; before each match it emits the
      text since the end of the previous match when that text is non-empty,
      then the match; finally it emits the text after the last match when
      there is any.  Concatenating the result gives back the text. */
  method SplitKeep(text: string, ms: seq<Match>) returns (result: seq<string>)
    requires WellFormed(ms, |text|)
    ensures Concat(result) == text
    ensures result == Render(text, Layout(ms, |text|))
  {
    result := [];
    var last: nat := 0;
    var k := 0;
    while k < |ms|
      invariant k <= |ms| && last == EndOf(ms[..k])
      invariant LoopInvariant(text, ms, k, result)
    {
      var m := ms[k];
      EndOfBefore(ms, k, |text|);
      ghost var before := result;
      if last != m.start {
        result := result + [text[last..m.start]];
      }
      result := result + [text[m.start..m.End()]];
      LoopStep(text, ms, k, before);
      last := m.End();
      k := k + 1;
    }
    ghost var body := result;
    if last < |text| {
      result := result + [text[last..]];
    }
    LoopEnd(text, ms, body);
  }

  lemma RenderTail(text: string, last: nat)
    requires last <= |text|
    ensures Render(text, if last < |text| then [Gap(last, |text|)] else []) ==
            if last < |text| then [text[last..]] else []
  {
    if last < |text| {
      assert text[last..|text|] == text[last..];
    }
  }

  /** What the loop keeps after `k` matches: the segments so far spell out
      the text up to the end of the `k`-th match, and they are the segments
      the first `k` matches lay out. */
  ghost predicate LoopInvariant(text: string, ms: seq<Match>, k: nat, result: seq<string>)
    requires k <= |ms|
  {
    && EndOf(ms[..k]) <= |text|
    && Concat(result) == text[..EndOf(ms[..k])]
    && result == Render(text, Body(ms[..k]))
  }

  /** The segments one turn of the loop adds keep the loop's invariant. */
  lemma LoopStep(text: string, ms: seq<Match>, k: nat, result: seq<string>)
    requires WellFormed(ms, |text|) && k < |ms|
    requires LoopInvariant(text, ms, k, result)
    ensures EndOf(ms[..k + 1]) == ms[k].End()
    ensures EndOf(ms[..k]) != ms[k].start ==>
              LoopInvariant(text, ms, k + 1,
                            result + [text[EndOf(ms[..k])..ms[k].start]] + [text[ms[k].start..ms[k].End()]])
    ensures EndOf(ms[..k]) == ms[k].start ==>
              LoopInvariant(text, ms, k + 1, result + [text[ms[k].start..ms[k].End()]])
  {
    var last, m := EndOf(ms[..k]), ms[k];
    EndOfBefore(ms, k, |text|);
    BodyStep(ms, k);
    RenderStep(text, last, m);
    RenderAppend(text, Body(ms[..k]), Step(last, m));
    var gap := if last != m.start then [text[last..m.start]] else [];
    var hit := [text[m.start..m.End()]];
    assert result + gap + hit == if last != m.start then result + [text[last..m.start]] + hit else result + hit;
    ConcatAppend(result + gap, hit);
    ConcatAppend(result, gap);
    ConcatSingle(text[m.start..m.End()]);
    if last != m.start {
      ConcatSingle(text[last..m.start]);
    }
    PrefixSplit(text, last, m.start, m.End());
  }

  lemma PrefixSplit(text: string, a: nat, b: nat, c: nat)
    requires a <= b <= c <= |text|
    ensures text[..c] == text[..a] + text[a..b] + text[b..c]
  {
  }

  /** The rest of the text after the last match completes the segments. */
  lemma LoopEnd(text: string, ms: seq<Match>, result: seq<string>)
    requires WellFormed(ms, |text|)
    requires LoopInvariant(text, ms, |ms|, result)
    ensures EndOf(ms) < |text| ==>
              var result' := result + [text[EndOf(ms)..]];
              Concat(result') == text && result' == Render(text, Layout(ms, |text|))
    ensures EndOf(ms) >= |text| ==>
              Concat(result) == text && result == Render(text, Layout(ms, |text|))
  {
    var last := EndOf(ms);
    var tail := if last < |text| then [Gap(last, |text|)] else [];
    assert ms[..|ms|] == ms;
    if last < |text| {
      ConcatAppend(result, [text[last..]]);
      ConcatSingle(text[last..]);
      assert text == text[..last] + text[last..];
    }
    assert result + (if last < |text| then [text[last..]] else []) ==
           if last < |text| then result + [text[last..]] else result;
    RenderTail(text, last);
    RenderAppend(text, Body(ms), tail);
  }

  lemma ConcatSingle(s: string)
    ensures Concat([s]) == s
  {
    assert [s][..0] == [];
  }

  /** One more turn of the loop adds the segments of the next match. */
  lemma BodyStep(ms: seq<Match>, k: nat)
    requires k < |ms|
    ensures EndOf(ms[..k + 1]) == ms[k].End()
    ensures Body(ms[..k + 1]) == Body(ms[..k]) + Step(EndOf(ms[..k]), ms[k])
  {
    var init := ms[..k + 1];
    assert init[..k] == ms[..k];
    assert init[k] == ms[k];
  }

  lemma EndOfBefore(ms: seq<Match>, k: nat, n: nat)
    requires WellFormed(ms, n) && k < |ms|
    ensures EndOf(ms[..k]) <= ms[k].start
  {
    if k > 0 {
      assert ms[..k][k - 1] == ms[k - 1];
    }
  }

  lemma RenderStep(text: string, last: nat, m: Match)
    requires last <= m.start && m.End() <= |text|
    ensures Render(text, Step(last, m)) ==
            (if last != m.start then [text[last..m.start]] else []) + [text[m.start..m.End()]]
  {
  }

  lemma RenderAppend(text: string, a: seq<Piece>, b: seq<Piece>)
    ensures Render(text, a + b) == Render(text, a) + Render(text, b)
  {
  }

  /** Without matches the whole text is the one segment, or there are no
      segments when the text is empty. */
  lemma SplitKeepNoMatch(text: string)
    ensures Layout([], |text|) == if |text| > 0 then [Gap(0, |text|)] else []
    ensures Render(text, Layout([], |text|)) == if |text| > 0 then [text] else []
  {
    if |text| > 0 {
      assert Layout([], |text|) == [Gap(0, |text|)];
      assert text[0..|text|] == text;
    } else {
      assert Layout([], |text|) == [];
    }
  }
}
