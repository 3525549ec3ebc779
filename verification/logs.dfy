/** `Logs`: a sequence of records with a forward-only read cursor, and the
    operations that build new streams from old ones (`new`, `merge`,
    `filter_logs`) or consume them (`Iterator::next`). */
module LogStream {
  import opened Wrappers
  import opened LogLines
  import opened Sorting
  import opened Tracer

  /** `lines` in the order they were given, `lineIdx` the position of the
      next record to hand out (Rust's `usize`; it never exceeds `|lines|` on
      any path through these operations, so it cannot overflow). */
  datatype Logs = Logs(lines: seq<LogLine>, lineIdx: nat)

  /** What one call of `next` produces: the advanced stream and the record. */
  datatype Step = Step(stream: Logs, item: Option<LogLine>)

  /** `a` is `b` with some elements left out, the rest kept in order. */
  ghost predicate IsSubsequence(a: seq<LogLine>, b: seq<LogLine>)
    decreases |b|
  {
    if |a| == 0 then true
    else if |b| == 0 then false
    else (a[0] == b[0] && IsSubsequence(a[1..], b[1..])) || IsSubsequence(a, b[1..])
  }

  /** Leaving out elements twice is leaving out elements once. */
  lemma {:induction false} SubsequenceTransitive(a: seq<LogLine>, b: seq<LogLine>, c: seq<LogLine>)
    requires IsSubsequence(a, b) && IsSubsequence(b, c)
    ensures IsSubsequence(a, c)
    decreases |c|
  {
    if |a| > 0 {
      if b[0] == c[0] && IsSubsequence(b[1..], c[1..]) {
        if a[0] == b[0] && IsSubsequence(a[1..], b[1..]) {
          SubsequenceTransitive(a[1..], b[1..], c[1..]);
        } else {
          SubsequenceTransitive(a, b[1..], c[1..]);
        }
      } else {
        SubsequenceTransitive(a, b, c[1..]);
      }
    }
  }

  /** The records the stream still has to hand out, read by calling `next`
      until it answers `None` (what a `for` loop over the stream sees). */
  function Drain(s: Logs): (r: seq<LogLine>)
    ensures s.lineIdx <= |s.lines| ==> r == s.lines[s.lineIdx..]
    ensures s.lineIdx >= |s.lines| ==> r == []
    decreases |s.lines| - s.lineIdx
  {
    var step := Next(s);
    match step.item
    case None => []
    case Some(line) => [line] + Drain(step.stream)
  }

  /** `Logs::new`: wraps the records as given, without sorting, cursor at the
      start, so reading the stream yields exactly `lines` in order. */
  function New(lines: seq<LogLine>): (r: Logs)
    ensures r.lineIdx == 0
    ensures Drain(r) == lines
  {
    Logs(lines, 0)
  }

  /** `Iterator::next`: hands out the record under the cursor and moves the
      cursor on; at the end it answers `None` and changes nothing.  The records
      themselves are never changed. */
  function Next(s: Logs): (r: Step)
    ensures r.stream.lines == s.lines
    ensures s.lineIdx < |s.lines| ==>
      r.item == Some(s.lines[s.lineIdx]) && r.stream.lineIdx == s.lineIdx + 1
    ensures s.lineIdx >= |s.lines| ==> r.item == None && r.stream == s
  {
    if s.lineIdx < |s.lines| then
      Step(Logs(s.lines, s.lineIdx + 1), Some(s.lines[s.lineIdx]))
    else
      Step(s, None)
  }

  /** The stream after `k` calls of `next`. */
  function Advance(s: Logs, k: nat): Logs
    decreases k
  {
    if k == 0 then s else Advance(Next(s).stream, k - 1)
  }

  /** An exhausted stream stays exhausted: however often `next` is called, it
      answers `None` and the stream does not change. */
  lemma {:induction false} ExhaustedStaysExhausted(s: Logs, k: nat)
    requires s.lineIdx >= |s.lines|
    ensures Advance(s, k) == s
    ensures Next(Advance(s, k)).item == None
  {
    if k > 0 {
      ExhaustedStaysExhausted(Next(s).stream, k - 1);
    }
  }

  /** `k` calls of `next` on a fresh stream have handed out the first `k`
      records and moved the cursor to `k`. */
  lemma {:induction false} AdvanceFresh(lines: seq<LogLine>, k: nat)
    requires k <= |lines|
    ensures Advance(New(lines), k) == Logs(lines, k)
  {
    AdvanceFrom(Logs(lines, 0), k);
  }

  lemma {:induction false} AdvanceFrom(s: Logs, k: nat)
    requires s.lineIdx + k <= |s.lines|
    ensures Advance(s, k) == Logs(s.lines, s.lineIdx + k)
    decreases k
  {
    if k > 0 {
      AdvanceFrom(Next(s).stream, k - 1);
    }
  }

  /** `Logs::merge`: all records of both streams, re-sorted by the derived
      order, in a fresh stream.  The cursors of the inputs play no part, and
      neither input is changed. */
  function Merge(self: Logs, other: Logs): (r: Logs)
    ensures r.lineIdx == 0
    ensures Sorted(r.lines)
    ensures multiset(r.lines) == multiset(self.lines) + multiset(other.lines)
  {
    New(Sort(self.lines + other.lines))
  }

  /** The merge is the one ascending arrangement of the two streams' records. */
  lemma MergeCharacterised(self: Logs, other: Logs, s: seq<LogLine>)
    requires Sorted(s)
    requires multiset(s) == multiset(self.lines) + multiset(other.lines)
    ensures Merge(self, other).lines == s
  {
    SortedUnique(Merge(self, other).lines, s);
  }

  /** Merging A with B gives the same sequence as merging B with A. */
  lemma MergeCommutative(a: Logs, b: Logs)
    ensures Merge(a, b).lines == Merge(b, a).lines
  {
    MergeCharacterised(a, b, Merge(b, a).lines);
  }

  /** Merging an ascending stream with an empty one gives back its records
      unchanged. */
  lemma MergeWithEmpty(a: Logs)
    requires Sorted(a.lines)
    ensures Merge(a, New([])).lines == a.lines
  {
    MergeCharacterised(a, New([]), a.lines);
  }

  /** `Iterator::filter` on a sequence. */
  function Filter(s: seq<LogLine>, p: LogLine -> bool): (r: seq<LogLine>)
    ensures IsSubsequence(r, s)
    ensures forall x :: multiset(r)[x] == (if p(x) then multiset(s)[x] else 0)
  {
    if |s| == 0 then []
    else
      var rest := Filter(s[1..], p);
      assert s == [s[0]] + s[1..];
      assert IsSubsequence(rest, s) by {
        if |rest| > 0 {
          assert !(rest[0] == s[0] && IsSubsequence(rest[1..], s[1..])) ==> IsSubsequence(rest, s[1..]);
        }
      }
      if p(s[0]) then [s[0]] + rest else rest
  }

  /** The record survives `filter_logs`: every `include` word occurs in its
      message and no `exclude` word does. */
  predicate Keep(line: LogLine, excluded: seq<string>, included: seq<string>) {
    Includes(line, included) && !Excludes(line, excluded)
  }

  /** `Logs::filter_logs`: keeps, in their order, the records whose message
      contains every `include` word and none of the `exclude` words, in a
      fresh stream.  Every record of the input takes part, whatever its
      cursor. */
  function FilterLogs(self: Logs, excluded: seq<string>, included: seq<string>): (r: Logs)
    ensures r.lineIdx == 0
    ensures IsSubsequence(r.lines, self.lines)
    ensures forall x :: multiset(r.lines)[x] ==
                         (if Keep(x, excluded, included) then multiset(self.lines)[x] else 0)
    ensures forall x :: x in r.lines <==> x in self.lines && Keep(x, excluded, included)
  {
    var withWords := Filter(self.lines, x => Includes(x, included));
    var kept := Filter(withWords, x => !Excludes(x, excluded));
    SubsequenceTransitive(kept, withWords, self.lines);
    assert forall x :: x in kept <==> multiset(kept)[x] > 0;
    Logs(kept, 0)
  }

  /** A predicate that keeps everything keeps the sequence as it is. */
  lemma {:induction false} FilterAll(s: seq<LogLine>, p: LogLine -> bool)
    requires forall x :: x in s ==> p(x)
    ensures Filter(s, p) == s
  {
    if |s| > 0 {
      FilterAll(s[1..], p);
    }
  }

  /** With no `include` and no `exclude` words the filter keeps every record,
      in the original order. */
  lemma FilterNothing(self: Logs)
    ensures FilterLogs(self, [], []).lines == self.lines
  {
    var inc := (x: LogLine) => Includes(x, []);
    var exc := (x: LogLine) => !Excludes(x, []);
    FilterAll(self.lines, inc);
    FilterAll(self.lines, exc);
  }
}
