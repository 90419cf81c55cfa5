/** `parseSection`: locate the first `User Data: <name>` section of a log (letter case
    ignored), cut it at the next `User Data:` or `NULL OBJECTS` marker, and collect every
    `Frame <digits>: <value>` line in it into a frame-to-value map. The two regular
    expressions of the source are written out here as explicit scanners. */
module Parser {
  import opened Text
  import opened Series

  datatype Option<T> = None | Some(value: T)

  /** The text that opens a section, before the section's name. */
  const HeaderLabel: string := "User Data: "
  /** The two markers that close a section. */
  const SectionMark: string := "User Data:"
  const NullObjects: string := "NULL OBJECTS"
  /** The text that opens a frame line; matched with its letter case. */
  const FrameLabel: string := "Frame "
  const FrameSeparator: string := ": "

  /** A section name with no regular-expression metacharacter, so that it matches itself. */
  predicate PlainName(name: string) {
    forall i :: 0 <= i < |name| ==> name[i] !in "\\^$.|?*+()[]{}"
  }

  /** A section header for `name` starts at `p`; the name in the text may go on beyond `name`.
      Every header is also a marker that ends the section before it. */
  predicate HeaderAt(data: string, name: string, p: nat)
    ensures HeaderAt(data, name, p) ==> BoundaryAt(data, p)
  {
    if MatchesAtIgnoringCase(data, p, HeaderLabel + name) then
      HeaderOpensWithMark(data, name, p);
      true
    else
      false
  }

  /** `User Data: <name>` opens with the marker `User Data:`. */
  lemma HeaderOpensWithMark(data: string, name: string, p: nat)
    requires MatchesAtIgnoringCase(data, p, HeaderLabel + name)
    ensures MatchesAtIgnoringCase(data, p, SectionMark)
  {
    forall j | 0 <= j < |SectionMark| ensures Lower(data[p + j]) == Lower(SectionMark[j]) {
      assert (HeaderLabel + name)[j] == SectionMark[j];
    }
  }

  /** A marker that ends a section starts at `q`: it lies within the text and opens with `u`
      or `n` in either letter case. */
  predicate BoundaryAt(data: string, q: nat)
    ensures BoundaryAt(data, q) ==> q + |SectionMark| <= |data|
    ensures BoundaryAt(data, q) ==> Lower(data[q]) == 'u' || Lower(data[q]) == 'n'
  {
    var mark, nulls := MatchesAtIgnoringCase(data, q, SectionMark), MatchesAtIgnoringCase(data, q, NullObjects);
    assert mark ==> Lower(data[q + 0]) == Lower(SectionMark[0]);
    assert nulls ==> Lower(data[q + 0]) == Lower(NullObjects[0]);
    mark || nulls
  }

  /** The first header for `name` at or after `from`. */
  function FindHeader(data: string, name: string, from: nat): (r: Option<nat>)
    ensures r.Some? ==> from <= r.value && HeaderAt(data, name, r.value)
    ensures r.Some? ==> forall p :: from <= p < r.value ==> !HeaderAt(data, name, p)
    ensures r.None? ==> forall p :: from <= p ==> !HeaderAt(data, name, p)
    decreases |data| - from
  {
    if |data| < from then None
    else if HeaderAt(data, name, from) then Some(from)
    else FindHeader(data, name, from + 1)
  }

  /** The first position at or after `from` where a marker starts, or the end of the text. */
  function SectionEnd(data: string, from: nat): (q: nat)
    requires from <= |data|
    ensures from <= q <= |data|
    ensures q == |data| || BoundaryAt(data, q)
    ensures forall j :: from <= j < q ==> !BoundaryAt(data, j)
    decreases |data| - from
  {
    if from == |data| || BoundaryAt(data, from) then from else SectionEnd(data, from + 1)
  }

  /** `data.match(/User Data: <name>[\s\S]*?(?=User Data:|NULL OBJECTS|$)/i)`: the bounds of
      the matched section, from its header up to, not including, the first marker after the
      header (or the end of the text); `None` when no header matches anywhere. */
  function LocateSection(data: string, name: string): (r: Option<(nat, nat)>)
    ensures r.None? <==> forall p :: !HeaderAt(data, name, p)
    ensures r.Some? ==>
      var (start, end) := r.value;
      && HeaderAt(data, name, start)
      && (forall p: nat :: p < start ==> !HeaderAt(data, name, p))
      && start + |HeaderLabel| + |name| <= end <= |data|
      && (end == |data| || BoundaryAt(data, end))
      && forall j :: start + |HeaderLabel| + |name| <= j < end ==> !BoundaryAt(data, j)
  {
    match FindHeader(data, name, 0)
    case None => None
    case Some(start) => Some((start, SectionEnd(data, start + |HeaderLabel + name|)))
  }

  predicate IsValueChar(c: char) {
    IsDigit(c) || c == '.' || c == '-' || c == 'e' || c == 'E'
  }

  /** `[\d]` and `[\d\.\-eE]`. */
  datatype CharClass = Digits | ValueChars

  predicate InClass(c: char, cls: CharClass) {
    match cls
    case Digits => IsDigit(c)
    case ValueChars => IsValueChar(c)
  }

  /** The length of the longest run of `cls` characters starting at `p` (a greedy `+`). */
  function RunLength(s: string, p: nat, cls: CharClass): (n: nat)
    requires p <= |s|
    ensures p + n <= |s|
    decreases |s| - p
  {
    if p < |s| && InClass(s[p], cls) then 1 + RunLength(s, p + 1, cls) else 0
  }

  /** The run is all of `cls` and is not followed by a `cls` character. */
  lemma {:induction false} RunLengthMaximal(s: string, p: nat, cls: CharClass)
    requires p <= |s|
    ensures forall j :: p <= j < p + RunLength(s, p, cls) ==> InClass(s[j], cls)
    ensures p + RunLength(s, p, cls) == |s| || !InClass(s[p + RunLength(s, p, cls)], cls)
    decreases |s| - p
  {
    if p < |s| && InClass(s[p], cls) {
      RunLengthMaximal(s, p + 1, cls);
    }
  }

  /** One match of `/Frame (\d+): ([\d\.\-eE]+)/`: where it starts, the frame number and its
      digits, and the value token. */
  datatype FrameMatch = FrameMatch(start: nat, frame: nat, digits: string, token: string) {
    function End(): nat {
      start + |FrameLabel| + |digits| + |FrameSeparator| + |token|
    }
  }

  /** `Frame <digits>: <token>` is written at `p` (the label, the digits, the separator and
      the token one after the other), with at least one digit, a token of at least one value
      character that no value character follows, and `frame` the number the digits denote. */
  ghost predicate IsFrameMatchAt(s: string, p: nat, m: FrameMatch) {
    && m.start == p
    && 0 < |m.digits| && AllDigits(m.digits) && m.frame == DecimalValue(m.digits)
    && 0 < |m.token| && (forall i :: 0 <= i < |m.token| ==> IsValueChar(m.token[i]))
    && MatchesAt(s, p, FrameLabel)
    && MatchesAt(s, p + |FrameLabel|, m.digits)
    && MatchesAt(s, p + |FrameLabel| + |m.digits|, FrameSeparator)
    && MatchesAt(s, p + |FrameLabel| + |m.digits| + |FrameSeparator|, m.token)
    && (m.End() == |s| || !IsValueChar(s[m.End()]))
  }

  /** The frame regular expression tried at position `p` alone. */
  function MatchFrameAt(s: string, p: nat): (r: Option<FrameMatch>)
    ensures r.Some? ==> r.value.start == p && p < r.value.End() <= |s|
  {
    if !MatchesAt(s, p, FrameLabel) then None
    else
      var d := p + |FrameLabel|;
      var n := RunLength(s, d, Digits);
      if n == 0 || !MatchesAt(s, d + n, FrameSeparator) then None
      else
        var t := d + n + |FrameSeparator|;
        var k := RunLength(s, t, ValueChars);
        if k == 0 then None
        else
          assert AllDigits(s[d..d + n]) by {
            RunSlice(s, d, Digits);
          }
          Some(FrameMatch(p, DecimalValue(s[d..d + n]), s[d..d + n], s[t..t + k]))
  }

  /** Every character of `t` is in `cls`. */
  predicate AllIn(t: string, cls: CharClass) {
    forall i :: 0 <= i < |t| ==> InClass(t[i], cls)
  }

  /** The characters of a greedy run, read off as a slice, are all of its class. */
  lemma RunSlice(s: string, p: nat, cls: CharClass)
    requires p <= |s|
    ensures AllIn(s[p..p + RunLength(s, p, cls)], cls)
  {
    RunLengthMaximal(s, p, cls);
    var t := s[p..p + RunLength(s, p, cls)];
    forall i | 0 <= i < |t| ensures InClass(t[i], cls) {
      assert t[i] == s[p + i];
    }
  }

  /** Where the pieces of a match found at `p` come from: the digits and the token are the
      greedy runs after the label and after the separator. */
  lemma MatchFrameAtPieces(s: string, p: nat)
    requires MatchFrameAt(s, p).Some?
    ensures var m, d := MatchFrameAt(s, p).value, p + |FrameLabel|;
      var t := d + |m.digits| + |FrameSeparator|;
      && m.start == p && (AllDigits(m.digits) ==> m.frame == DecimalValue(m.digits))
      && MatchesAt(s, p, FrameLabel)
      && |m.digits| == RunLength(s, d, Digits) && m.digits == s[d..d + |m.digits|]
      && MatchesAt(s, d + |m.digits|, FrameSeparator)
      && |m.token| == RunLength(s, t, ValueChars) && m.token == s[t..t + |m.token|]
      && t + |m.token| == m.End()
  {
  }

  /** Whatever the frame expression matches at `p` has the shape of a frame line. */
  lemma MatchFrameAtSound(s: string, p: nat)
    requires MatchFrameAt(s, p).Some?
    ensures IsFrameMatchAt(s, p, MatchFrameAt(s, p).value)
  {
    MatchFrameAtPieces(s, p);
    RunsShape(s, p, MatchFrameAt(s, p).value);
  }

  /** Greedy runs of digits and of value characters, laid out after the label and the
      separator, have the shape of a frame line. */
  lemma RunsShape(s: string, p: nat, m: FrameMatch)
    requires var d := p + |FrameLabel|;
      var t := d + |m.digits| + |FrameSeparator|;
      && m.start == p && 0 < |m.digits| && 0 < |m.token|
      && (AllDigits(m.digits) ==> m.frame == DecimalValue(m.digits))
      && MatchesAt(s, p, FrameLabel)
      && |m.digits| == RunLength(s, d, Digits) && m.digits == s[d..d + |m.digits|]
      && MatchesAt(s, d + |m.digits|, FrameSeparator)
      && |m.token| == RunLength(s, t, ValueChars) && m.token == s[t..t + |m.token|]
      && t + |m.token| == m.End()
    ensures IsFrameMatchAt(s, p, m)
  {
    var d := p + |FrameLabel|;
    var t := d + |m.digits| + |FrameSeparator|;
    assert AllDigits(m.digits) by {
      RunSlice(s, d, Digits);
      assert AllIn(m.digits, Digits);
    }
    RunSlice(s, t, ValueChars);
    assert AllIn(m.token, ValueChars);
    forall i | 0 <= i < |m.token| ensures IsValueChar(m.token[i]) {
      assert InClass(m.token[i], ValueChars);
    }
    assert m.End() == |s| || !IsValueChar(s[m.End()]) by {
      var k := RunLength(s, t, ValueChars);
      RunLengthMaximal(s, t, ValueChars);
      assert t + k == m.End();
      assert t + k == |s| || !InClass(s[t + k], ValueChars);
    }
  }

  /** A run of `n` characters of `cls` not followed by one is what the greedy scan finds. */
  lemma {:induction false} RunLengthExact(s: string, p: nat, cls: CharClass, n: nat)
    requires p + n <= |s|
    requires forall j :: p <= j < p + n ==> InClass(s[j], cls)
    requires p + n == |s| || !InClass(s[p + n], cls)
    ensures RunLength(s, p, cls) == n
    decreases n
  {
    if n > 0 {
      RunLengthExact(s, p + 1, cls, n - 1);
    }
  }

  /** A greedy run starting where `run` is written, all of `cls` and not followed by `cls`,
      is exactly `run`. */
  lemma RunOfSlice(s: string, q: nat, run: string, cls: CharClass)
    requires MatchesAt(s, q, run)
    requires forall i :: 0 <= i < |run| ==> InClass(run[i], cls)
    requires q + |run| == |s| || !InClass(s[q + |run|], cls)
    ensures RunLength(s, q, cls) == |run|
  {
    forall j | q <= j < q + |run| ensures InClass(s[j], cls) {
      assert s[j] == s[q..q + |run|][j - q];
    }
    RunLengthExact(s, q, cls, |run|);
  }

  /** How `MatchFrameAt` decides, once the greedy runs are known to be `m`'s digits and token. */
  lemma MatchFrameAtRuns(s: string, p: nat, m: FrameMatch)
    requires m.start == p && 0 < |m.digits| && 0 < |m.token|
    requires AllDigits(m.digits) && m.frame == DecimalValue(m.digits)
    requires MatchesAt(s, p, FrameLabel)
    requires var d := p + |FrameLabel|;
      && RunLength(s, d, Digits) == |m.digits| && s[d..d + |m.digits|] == m.digits
      && MatchesAt(s, d + |m.digits|, FrameSeparator)
    requires var t := p + |FrameLabel| + |m.digits| + |FrameSeparator|;
      RunLength(s, t, ValueChars) == |m.token| && s[t..t + |m.token|] == m.token
    ensures MatchFrameAt(s, p) == Some(m)
  {
  }

  /** The greedy runs at a frame line are its digits and its token. */
  lemma FrameLineRuns(s: string, p: nat, m: FrameMatch)
    requires IsFrameMatchAt(s, p, m)
    ensures var d := p + |FrameLabel|;
      && RunLength(s, d, Digits) == |m.digits|
      && RunLength(s, d + |m.digits| + |FrameSeparator|, ValueChars) == |m.token|
  {
    var d, n := p + |FrameLabel|, |m.digits|;
    var t, k := d + n + |FrameSeparator|, |m.token|;
    assert RunLength(s, d, Digits) == n by {
      assert s[d + n] == s[d + n..d + n + |FrameSeparator|][0] == ':';
      assert forall i :: 0 <= i < n ==> InClass(m.digits[i], Digits);
      RunOfSlice(s, d, m.digits, Digits);
    }
    assert RunLength(s, t, ValueChars) == k by {
      assert t + k == m.End();
      assert forall i :: 0 <= i < k ==> InClass(m.token[i], ValueChars);
      RunOfSlice(s, t, m.token, ValueChars);
    }
  }

  /** The frame expression matches at `p` exactly when the text there has the shape of a
      frame line, and then with that line's digits and token: the greedy runs leave no choice. */
  lemma MatchFrameAtComplete(s: string, p: nat, m: FrameMatch)
    requires IsFrameMatchAt(s, p, m)
    ensures MatchFrameAt(s, p) == Some(m)
  {
    var d, n := p + |FrameLabel|, |m.digits|;
    var t, k := d + n + |FrameSeparator|, |m.token|;
    FrameLineRuns(s, p, m);
    assert s[d..d + n] == m.digits && s[t..t + k] == m.token;
    MatchFrameAtRuns(s, p, m);
  }

  /** A regular expression tried at exactly one position of a text. */
  type Matcher = (string, nat) -> Option<FrameMatch>

  /** A match reported at `p` starts at `p` and ends, at least one character later, within
      the text. */
  ghost predicate Anchored(matchAt: Matcher) {
    forall s: string, p: nat :: matchAt(s, p).Some? ==>
      matchAt(s, p).value.start == p && p < matchAt(s, p).value.End() <= |s|
  }

  lemma FrameMatcherAnchored()
    ensures Anchored(MatchFrameAt)
  {
    forall s: string, p: nat | MatchFrameAt(s, p).Some?
      ensures MatchFrameAt(s, p).value.start == p && p < MatchFrameAt(s, p).value.End() <= |s|
    {
    }
  }

  /** `regex.exec(s)` on a global expression with `lastIndex == from`: the first match
      starting at or after `from`. */
  function NextMatch(matchAt: Matcher, s: string, from: nat): (r: Option<FrameMatch>)
    requires from <= |s| && Anchored(matchAt)
    ensures r.Some? ==> from <= r.value.start < r.value.End() <= |s|
    decreases |s| - from
  {
    var here := matchAt(s, from);
    if here.Some? then here
    else if from == |s| then None
    else NextMatch(matchAt, s, from + 1)
  }

  /** What `NextMatch` reports is a match where it starts. */
  lemma {:induction false} NextMatchFound(matchAt: Matcher, s: string, from: nat)
    requires from <= |s| && Anchored(matchAt) && NextMatch(matchAt, s, from).Some?
    ensures matchAt(s, NextMatch(matchAt, s, from).value.start) == NextMatch(matchAt, s, from)
    decreases |s| - from
  {
    if matchAt(s, from).None? {
      NextMatchFound(matchAt, s, from + 1);
    }
  }

  /** No match starts between `from` and the one `NextMatch` reports: it is the leftmost. */
  lemma {:induction false} NextMatchLeftmost(matchAt: Matcher, s: string, from: nat, q: nat)
    requires from <= q <= |s| && Anchored(matchAt)
    requires NextMatch(matchAt, s, from).Some? && q < NextMatch(matchAt, s, from).value.start
    ensures matchAt(s, q).None?
    decreases |s| - from
  {
    if q > from {
      NextMatchLeftmost(matchAt, s, from + 1, q);
    }
  }

  /** When `NextMatch` finds nothing, no match starts anywhere from `from` to the end. */
  lemma {:induction false} NextMatchNone(matchAt: Matcher, s: string, from: nat, q: nat)
    requires from <= q <= |s| && Anchored(matchAt) && NextMatch(matchAt, s, from).None?
    ensures matchAt(s, q).None?
    decreases |s| - from
  {
    if q > from {
      NextMatchNone(matchAt, s, from + 1, q);
    }
  }

  /** The matches repeated `exec` calls report, each search resuming where the previous
      match ended, until one finds nothing. */
  function Occurrences(matchAt: Matcher, s: string, from: nat): (found: seq<FrameMatch>)
    requires from <= |s| && Anchored(matchAt)
    ensures |found| <= |s| - from
    decreases |s| - from
  {
    match NextMatch(matchAt, s, from)
    case None => []
    case Some(m) => [m] + Occurrences(matchAt, s, m.End())
  }

  /** One `exec` call that finds `m` contributes `m` and resumes after it. */
  lemma OccurrencesStep(matchAt: Matcher, s: string, from: nat)
    requires from <= |s| && Anchored(matchAt) && NextMatch(matchAt, s, from).Some?
    ensures var m := NextMatch(matchAt, s, from).value;
      Occurrences(matchAt, s, from) == [m] + Occurrences(matchAt, s, m.End())
  {
  }

  /** One `exec` call that finds nothing ends the scan. */
  lemma OccurrencesDone(matchAt: Matcher, s: string, from: nat)
    requires from <= |s| && Anchored(matchAt) && NextMatch(matchAt, s, from).None?
    ensures Occurrences(matchAt, s, from) == []
  {
  }

  /** Where the search for the `k`-th match begins. */
  function ResumeAt(from: nat, found: seq<FrameMatch>, k: nat): nat
    requires k <= |found|
  {
    if k == 0 then from else found[k - 1].End()
  }

  /** Every element of `found` is a match where it starts, no earlier than the previous one
      ended. */
  ghost predicate ScanHits(matchAt: Matcher, s: string, from: nat, found: seq<FrameMatch>) {
    forall k :: 0 <= k < |found| ==>
      ResumeAt(from, found, k) <= found[k].start <= |s| && matchAt(s, found[k].start) == Some(found[k])
  }

  /** No match starts at a position a search passed over, including after the last match. */
  ghost predicate ScanMisses(matchAt: Matcher, s: string, from: nat, found: seq<FrameMatch>) {
    forall k, q ::
      (0 <= k <= |found| && ResumeAt(from, found, k) <= q <= |s| && (k == |found| || q < found[k].start))
      ==> matchAt(s, q).None?
  }

  /** `found` is a non-overlapping left-to-right scan of `s` from `from`. */
  ghost predicate IsScan(matchAt: Matcher, s: string, from: nat, found: seq<FrameMatch>) {
    ScanHits(matchAt, s, from, found) && ScanMisses(matchAt, s, from, found)
  }

  lemma {:induction false} OccurrencesHits(matchAt: Matcher, s: string, from: nat)
    requires from <= |s| && Anchored(matchAt)
    ensures ScanHits(matchAt, s, from, Occurrences(matchAt, s, from))
    decreases |s| - from
  {
    var found := Occurrences(matchAt, s, from);
    if NextMatch(matchAt, s, from).Some? {
      var m := NextMatch(matchAt, s, from).value;
      NextMatchFound(matchAt, s, from);
      var rest := Occurrences(matchAt, s, m.End());
      OccurrencesHits(matchAt, s, m.End());
      assert found == [m] + rest;
      forall k | 0 <= k < |found|
        ensures ResumeAt(from, found, k) <= found[k].start <= |s|
        ensures matchAt(s, found[k].start) == Some(found[k])
      {
        if k > 0 {
          assert found[k] == rest[k - 1];
          assert ResumeAt(from, found, k) == ResumeAt(m.End(), rest, k - 1);
        }
      }
    }
  }

  lemma {:induction false} OccurrencesMisses(matchAt: Matcher, s: string, from: nat)
    requires from <= |s| && Anchored(matchAt)
    ensures ScanMisses(matchAt, s, from, Occurrences(matchAt, s, from))
    decreases |s| - from
  {
    var found := Occurrences(matchAt, s, from);
    if NextMatch(matchAt, s, from).None? {
      assert found == [];
      forall q | from <= q <= |s| ensures matchAt(s, q).None? {
        NextMatchNone(matchAt, s, from, q);
      }
    } else {
      var m := NextMatch(matchAt, s, from).value;
      var rest := Occurrences(matchAt, s, m.End());
      OccurrencesMisses(matchAt, s, m.End());
      assert found == [m] + rest;
      forall k, q | 0 <= k <= |found| && ResumeAt(from, found, k) <= q <= |s| && (k == |found| || q < found[k].start)
        ensures matchAt(s, q).None?
      {
        if k == 0 {
          NextMatchLeftmost(matchAt, s, from, q);
        } else {
          assert ResumeAt(from, found, k) == ResumeAt(m.End(), rest, k - 1);
          assert k == |found| || found[k] == rest[k - 1];
        }
      }
    }
  }

  /** Repeated `exec` calls scan the text left to right without overlap and miss no match. */
  lemma OccurrencesScan(matchAt: Matcher, s: string, from: nat)
    requires from <= |s| && Anchored(matchAt)
    ensures IsScan(matchAt, s, from, Occurrences(matchAt, s, from))
  {
    OccurrencesHits(matchAt, s, from);
    OccurrencesMisses(matchAt, s, from);
  }

  /** The frame lines `/Frame (\d+): ([\d\.\-eE]+)/g` finds in a section, in order. */
  ghost function FrameLines(sectionText: string): (found: seq<FrameMatch>)
    ensures IsScan(MatchFrameAt, sectionText, 0, found)
    ensures forall k :: 0 <= k < |found| ==> IsFrameMatchAt(sectionText, found[k].start, found[k])
  {
    FrameMatcherAnchored();
    var found := Occurrences(MatchFrameAt, sectionText, 0);
    OccurrencesScan(MatchFrameAt, sectionText, 0);
    forall k | 0 <= k < |found| ensures IsFrameMatchAt(sectionText, found[k].start, found[k]) {
      MatchFrameAtSound(sectionText, found[k].start);
    }
    found
  }

  /** The map the loop builds: each match in turn sets its frame to the parsed token, so a
      later match of the same frame overwrites an earlier one. */
  function Collect(found: seq<FrameMatch>, parseFloat: string -> real): (m: FrameSeries)
    ensures m.Keys == set i | 0 <= i < |found| :: found[i].frame
  {
    if |found| == 0 then map[]
    else
      var init := found[..|found| - 1];
      var m := Collect(init, parseFloat);
      assert forall i :: 0 <= i < |found| - 1 ==> found[i] == init[i];
      assert (set i | 0 <= i < |found| :: found[i].frame) == m.Keys + {Last(found).frame};
      m[Last(found).frame := parseFloat(Last(found).token)]
  }

  /** Collecting one more match sets its frame in the map built so far. */
  lemma CollectSnoc(found: seq<FrameMatch>, m: FrameMatch, parseFloat: string -> real)
    ensures Collect(found + [m], parseFloat) == Collect(found, parseFloat)[m.frame := parseFloat(m.token)]
  {
    assert (found + [m])[..|found|] == found;
  }

  /** A frame's value is the one parsed from its last match in the section. */
  lemma {:induction false} CollectLastWins(found: seq<FrameMatch>, parseFloat: string -> real, i: nat)
    requires i < |found|
    requires forall j :: i < j < |found| ==> found[j].frame != found[i].frame
    ensures found[i].frame in Collect(found, parseFloat)
    ensures Collect(found, parseFloat)[found[i].frame] == parseFloat(found[i].token)
  {
    if i < |found| - 1 {
      var init := found[..|found| - 1];
      assert init[i] == found[i];
      CollectLastWins(init, parseFloat, i);
    }
  }

  /** The `exec` loop of `parseSection` over the section's text: every match in turn sets
      its frame to the parsed token. */
  method CollectFrames(matchAt: Matcher, sectionText: string, parseFloat: string -> real)
    returns (result: FrameSeries)
    requires Anchored(matchAt)
    ensures result == Collect(Occurrences(matchAt, sectionText, 0), parseFloat)
  {
    var lastIndex := 0;
    result := map[];
    ghost var found: seq<FrameMatch> := [];
    var frameMatch := NextMatch(matchAt, sectionText, lastIndex);
    while frameMatch.Some?
      invariant lastIndex <= |sectionText|
      invariant frameMatch == NextMatch(matchAt, sectionText, lastIndex)
      invariant found + Occurrences(matchAt, sectionText, lastIndex) == Occurrences(matchAt, sectionText, 0)
      invariant result == Collect(found, parseFloat)
      decreases |sectionText| - lastIndex
    {
      var m := frameMatch.value;
      ScanStep(matchAt, sectionText, lastIndex, found);
      CollectSnoc(found, m, parseFloat);
      result := result[m.frame := parseFloat(m.token)];
      found := found + [m];
      lastIndex := m.End();
      frameMatch := NextMatch(matchAt, sectionText, lastIndex);
    }
    OccurrencesDone(matchAt, sectionText, lastIndex);
    assert found + [] == found;
  }

  /** One more `exec` that finds a match moves that match from the rest of the scan to what
      has been seen. */
  lemma ScanStep(matchAt: Matcher, s: string, from: nat, found: seq<FrameMatch>)
    requires from <= |s| && Anchored(matchAt) && NextMatch(matchAt, s, from).Some?
    requires found + Occurrences(matchAt, s, from) == Occurrences(matchAt, s, 0)
    ensures var m := NextMatch(matchAt, s, from).value;
      && from < m.End() <= |s|
      && (found + [m]) + Occurrences(matchAt, s, m.End()) == Occurrences(matchAt, s, 0)
  {
    var m := NextMatch(matchAt, s, from).value;
    OccurrencesStep(matchAt, s, from);
    assert found + ([m] + Occurrences(matchAt, s, m.End())) == (found + [m]) + Occurrences(matchAt, s, m.End());
  }

  /** `parseSection(data, sectionName)`; `parseFloat` stands for JavaScript's conversion of a
      value token to a number. */
  method ParseSection(data: string, sectionName: string, parseFloat: string -> real)
    returns (frames: Option<FrameSeries>)
    requires PlainName(sectionName)
    ensures frames.None? <==> forall p :: !HeaderAt(data, sectionName, p)
    ensures frames.Some? ==>
      && LocateSection(data, sectionName).Some?
      && var (start, end) := LocateSection(data, sectionName).value;
         frames.value == Collect(FrameLines(data[start..end]), parseFloat)
  {
    var located := LocateSection(data, sectionName);
    if located.None? {
      return None;
    }
    var sectionText := data[located.value.0..located.value.1];
    FrameMatcherAnchored();
    var result := CollectFrames(MatchFrameAt, sectionText, parseFloat);
    frames := Some(result);
  }

  /** The header is matched whatever its letter case, and a longer name in the text that
      starts with the requested one is accepted too (`Left Arm2` for `Left Arm`). */
  lemma ExampleHeaders()
    ensures HeaderAt("user data: LEFT ARM", "Left Arm", 0)
    ensures HeaderAt("User Data: Left Arm2", "Left Arm", 0)
    ensures !HeaderAt("User Data Left Arm", "Left Arm", 0)
  {
  }

  /** A frame line: the digits give the frame and the greedy token stops at the space. */
  lemma ExampleFrameLine()
    ensures MatchFrameAt("Frame 12: -3.5e2 x", 0) == Some(FrameMatch(0, 12, "12", "-3.5e2"))
  {
    ExampleFrameLineShape();
    MatchFrameAtComplete("Frame 12: -3.5e2 x", 0, FrameMatch(0, 12, "12", "-3.5e2"));
  }

  /** The example line has the frame-line shape, with frame 12 and token `-3.5e2`. */
  lemma ExampleFrameLineShape()
    ensures IsFrameMatchAt("Frame 12: -3.5e2 x", 0, FrameMatch(0, 12, "12", "-3.5e2"))
  {
    var line := "Frame 12: -3.5e2 x";
    var m := FrameMatch(0, 12, "12", "-3.5e2");
    ExampleDigits();
    ExampleToken();
    assert line[0..6] == FrameLabel;
    assert line[6..8] == "12";
    assert line[8..10] == FrameSeparator;
    assert line[10..16] == "-3.5e2";
    assert m.End() == 16 && !IsValueChar(line[16]);
  }

  /** The example's digits denote 12. */
  lemma ExampleDigits()
    ensures AllDigits("12") && DecimalValue("12") == 12
  {
    assert DecimalValue("1"[..0]) == 0 && DigitValue('1') == 1 && DigitValue('2') == 2;
    assert DecimalValue("1") == 1 && "12"[..1] == "1";
  }

  /** The example's token is made of value characters. */
  lemma ExampleToken()
    ensures forall i :: 0 <= i < |"-3.5e2"| ==> IsValueChar("-3.5e2"[i])
  {
  }

  /** `frame` in lower case is not a frame line: the frame expression keeps its letter case. */
  lemma ExampleLowerCaseFrame()
    ensures MatchFrameAt("frame 12: 3.5", 0).None?
  {
    var line := "frame 12: 3.5";
    assert line[0..6][0] != FrameLabel[0];
  }

  /** Without the `: ` separator there is no frame line. */
  lemma ExampleMissingSeparator()
    ensures MatchFrameAt("Frame 12 3.5", 0).None?
  {
    var line := "Frame 12 3.5";
    assert RunLength(line, 6, Digits) == 2;
    assert line[8..10][0] != FrameSeparator[0];
  }
}
