/** The prompt renderer: the colour groups built by `get_green`,
    `get_yellow`, `get_gray` and `get_red`, and the assembly of the final
    line in `GitPrompt::run`. `Parse` reads a rendered line back; the
    round-trip lemmas show that the line carries exactly the identity and
    the non-zero counters, in the fixed order. */
module Renderer {
  import opened Wrappers
  import opened Numerals
  import opened Strings
  import opened Status

  /** The counters of each colour group, in the order their segments are pushed. */
  const GreenCounters: seq<Counter> := [IndexNew, IndexModified, IndexRenamed, IndexTypechange]
  const YellowCounters: seq<Counter> := [WtNew, WtModified, WtRenamed, WtTypechange, Ahead, Behind]
  const GrayCounters: seq<Counter> := [Ignored]
  const RedCounters: seq<Counter> := [IndexDeleted, WtDeleted, Conflicted]

  /** Every counter once, in the order its segment can appear on the line. */
  const DisplayOrder: seq<Counter> := GreenCounters + YellowCounters + GrayCounters + RedCounters

  /** The literal written in front of a counter's value. */
  function Prefix(k: Counter): string {
    match k
    case IndexNew => "+"
    case IndexModified => "+~"
    case IndexRenamed => "+->"
    case IndexTypechange => "+t"
    case WtNew => "?"
    case WtModified => "~"
    case WtRenamed => "->"
    case WtTypechange => "t"
    case Ahead => "↑"
    case Behind => "↓"
    case Ignored => "!"
    case IndexDeleted => "+-"
    case WtDeleted => "-"
    case Conflicted => "c"
  }

  /** `format!("{prefix}{n}")`. */
  function Segment(k: Counter, n: nat): string {
    Prefix(k) + Decimal(n)
  }

  /** The counters of `ks` that are non-zero, with their values, in the order of `ks`. */
  function Present(s: GitStatus, ks: seq<Counter>): seq<(Counter, nat)>
  {
    if |ks| == 0 then []
    else (if s.Count(ks[0]) > 0 then [(ks[0], s.Count(ks[0]))] else []) + Present(s, ks[1..])
  }

  function Segments(es: seq<(Counter, nat)>): (ts: seq<string>)
  {
    seq(|es|, i requires 0 <= i < |es| => Segment(es[i].0, es[i].1))
  }

  /** A colour group: the segments of its non-zero counters, joined by one space. */
  function Group(s: GitStatus, ks: seq<Counter>): string {
    Join(" ", Segments(Present(s, ks)))
  }

  /** `GitStatus::get_green`: staged additions, modifications, renames, type changes. */
  function Green(s: GitStatus): string {
    Group(s, GreenCounters)
  }

  /** `GitStatus::get_yellow`: unstaged changes, then commits ahead and behind. */
  function Yellow(s: GitStatus): string {
    Group(s, YellowCounters)
  }

  /** `GitStatus::get_gray`: the ignored count, or nothing. */
  function Gray(s: GitStatus): string {
    if s.ignored > 0 then "!" + Decimal(s.ignored) else ""
  }

  /** `GitStatus::get_red`: staged deletions, unstaged deletions, conflicts. */
  function Red(s: GitStatus): string {
    Group(s, RedCounters)
  }

  /** The remote slot: both branches of `GitPrompt::run`'s test yield the empty string. */
  function RemoteSlot(s: GitStatus): string {
    if s.remote != "" then "" else ""
  }

  /** The tag when there is one, the branch otherwise. */
  function BranchTag(s: GitStatus): string {
    if s.tag == "" then s.branch else s.tag
  }

  /** The prompt line `GitPrompt::run` returns for a collected snapshot. */
  function Render(s: GitStatus): (line: string)
    ensures |line| > 0 && line[0] == ' '
  {
    var groups := [RemoteSlot(s), BranchTag(s), Green(s), Yellow(s), Gray(s), Red(s)];
    " " + Trim(Join(" ", NonEmpty(groups)))
  }

  /** What follows the leading space is trimmed: trimming it again changes
      nothing, so it has no whitespace at either end. */
  lemma RenderTrimmed(s: GitStatus)
    ensures Trim(Render(s)[1..]) == Render(s)[1..]
  {
    var joined := Join(" ", NonEmpty([RemoteSlot(s), BranchTag(s), Green(s), Yellow(s), Gray(s), Red(s)]));
    assert Render(s) == " " + Trim(joined);
    SpacedTrimmed(joined);
  }

  /** A space put in front of trimmed text leaves trimmed text behind it. */
  lemma SpacedTrimmed(t: string)
    ensures Trim((" " + Trim(t))[1..]) == (" " + Trim(t))[1..]
  {
    assert (" " + Trim(t))[1..] == Trim(t);
    TrimIdempotent(t);
  }

  // ---------------------------------------------------------------------
  // Reading a line back

  datatype Reading = Reading(identity: string, counters: seq<(Counter, nat)>)

  /** The counter a prefix belongs to, if any. */
  function CounterOf(p: string): Option<Counter> {
    if p == "+" then Some(IndexNew)
    else if p == "+~" then Some(IndexModified)
    else if p == "+->" then Some(IndexRenamed)
    else if p == "+t" then Some(IndexTypechange)
    else if p == "?" then Some(WtNew)
    else if p == "~" then Some(WtModified)
    else if p == "->" then Some(WtRenamed)
    else if p == "t" then Some(WtTypechange)
    else if p == "↑" then Some(Ahead)
    else if p == "↓" then Some(Behind)
    else if p == "!" then Some(Ignored)
    else if p == "+-" then Some(IndexDeleted)
    else if p == "-" then Some(WtDeleted)
    else if p == "c" then Some(Conflicted)
    else None
  }

  /** The length of the longest prefix of `t` free of decimal digits. */
  function LeadingNonDigits(t: string): (n: nat)
    ensures n <= |t|
    ensures forall i :: 0 <= i < n ==> !IsDigit(t[i])
    ensures n < |t| ==> IsDigit(t[n])
  {
    if |t| == 0 || IsDigit(t[0]) then 0 else 1 + LeadingNonDigits(t[1..])
  }

  /** Reads one segment: a known prefix, then a positive numeral without leading zeros. */
  function ParseSegment(t: string): Option<(Counter, nat)> {
    var n := LeadingNonDigits(t);
    var digits := t[n..];
    if |digits| == 0 || digits[0] == '0' || exists i :: 0 <= i < |digits| && !IsDigit(digits[i]) then None
    else
      match CounterOf(t[..n])
      case None => None
      case Some(k) => Some((k, Value(digits, 10)))
  }

  function ParseSegments(ts: seq<string>): Option<seq<(Counter, nat)>> {
    if |ts| == 0 then Some([])
    else
      match (ParseSegment(ts[0]), ParseSegments(ts[1..]))
      case (Some(e), Some(es)) => Some([e] + es)
      case _ => None
  }

  /** Reads a prompt line: a leading space, then the identity word, then segments. */
  function Parse(line: string): Option<Reading> {
    if |line| == 0 || line[0] != ' ' then None
    else if |line| == 1 then Some(Reading("", []))
    else
      var words := Split(line[1..], ' ');
      match ParseSegments(words[1..])
      case None => None
      case Some(es) => Some(Reading(words[0], es))
  }

  /** An identity that survives the line intact: non-empty, without spaces
      and without whitespace at either end. Git's ref-name rules forbid ASCII
      spaces and control characters, but a branch name may still start or end
      with other Unicode whitespace, such as U+00A0; such a name is not
      displayable. */
  predicate Displayable(name: string) {
    && |name| > 0
    && ' ' !in name
    && !IsWhitespace(name[0])
    && !IsWhitespace(name[|name| - 1])
  }

  /** The identity word, if the identity is not empty. */
  function IdentityWords(s: GitStatus): seq<string> {
    if BranchTag(s) == "" then [] else [BranchTag(s)]
  }

  // ---------------------------------------------------------------------
  // Lemmas

  lemma PrefixShape(k: Counter)
    ensures |Prefix(k)| > 0
    ensures !IsWhitespace(Prefix(k)[0])
    ensures ' ' !in Prefix(k)
    ensures forall i :: 0 <= i < |Prefix(k)| ==> !IsDigit(Prefix(k)[i])
    ensures CounterOf(Prefix(k)) == Some(k)
  {
  }

  /** A segment is one word: non-empty, space-free, starting with its prefix
      and ending in a digit. */
  lemma SegmentShape(k: Counter, n: nat)
    ensures |Segment(k, n)| > 0
    ensures ' ' !in Segment(k, n)
    ensures !IsWhitespace(Segment(k, n)[0])
    ensures IsDigit(Segment(k, n)[|Segment(k, n)| - 1])
  {
    PrefixShape(k);
    var d := Decimal(n);
    assert Segment(k, n)[|Segment(k, n)| - 1] == d[|d| - 1];
  }

  lemma SegmentsShape(es: seq<(Counter, nat)>)
    ensures AllNonEmpty(Segments(es))
    ensures forall i :: 0 <= i < |es| ==> ' ' !in Segments(es)[i]
  {
    forall i | 0 <= i < |es|
      ensures |Segments(es)[i]| > 0 && ' ' !in Segments(es)[i]
    {
      SegmentShape(es[i].0, es[i].1);
    }
  }

  /** Reading a segment recovers its counter and value exactly when the value
      is positive; a zero-valued segment is not a well-formed word. */
  lemma ParseSegmentInverse(k: Counter, n: nat)
    ensures ParseSegment(Segment(k, n)) == (if n > 0 then Some((k, n)) else None)
  {
    var p := Prefix(k);
    var d := Decimal(n);
    var t := Segment(k, n);
    PrefixShape(k);
    assert t[|p|] == d[0];
    assert forall i :: 0 <= i < |p| ==> t[i] == p[i];
    assert LeadingNonDigits(t) == |p| by {
      LeadingNonDigitsOf(p, d);
    }
    assert t[|p|..] == d && t[..|p|] == p;
    DecimalValue(n);
  }

  lemma {:induction false} LeadingNonDigitsOf(p: string, d: string)
    requires forall i :: 0 <= i < |p| ==> !IsDigit(p[i])
    requires |d| > 0 && IsDigit(d[0])
    ensures LeadingNonDigits(p + d) == |p|
    decreases |p|
  {
    if |p| > 0 {
      LeadingNonDigitsOf(p[1..], d);
      assert (p + d)[1..] == p[1..] + d;
    }
  }

  lemma {:induction false} ParseSegmentsInverse(es: seq<(Counter, nat)>)
    requires forall i :: 0 <= i < |es| ==> es[i].1 > 0
    ensures ParseSegments(Segments(es)) == Some(es)
    decreases |es|
  {
    if |es| > 0 {
      var ts := Segments(es);
      ParseSegmentsInverse(es[1..]);
      SegmentsCons(es);
      SegmentParses(es[0]);
      ParseSegmentsCons(ts, es[0], es[1..]);
      assert [es[0]] + es[1..] == es;
    }
  }

  lemma SegmentsCons(es: seq<(Counter, nat)>)
    requires |es| > 0
    ensures Segments(es)[0] == Segment(es[0].0, es[0].1)
    ensures Segments(es)[1..] == Segments(es[1..])
  {
  }

  /** A segment of a positive value reads back as its counter and value. */
  lemma SegmentParses(e: (Counter, nat))
    requires e.1 > 0
    ensures ParseSegment(Segment(e.0, e.1)) == Some(e)
  {
    ParseSegmentInverse(e.0, e.1);
  }

  /** Reading a list of segments: its first segment, then the rest. */
  lemma ParseSegmentsCons(ts: seq<string>, e: (Counter, nat), es: seq<(Counter, nat)>)
    requires |ts| > 0
    requires ParseSegment(ts[0]) == Some(e) && ParseSegments(ts[1..]) == Some(es)
    ensures ParseSegments(ts) == Some([e] + es)
  {
  }

  lemma {:induction false} PresentAppend(s: GitStatus, a: seq<Counter>, b: seq<Counter>)
    ensures Present(s, a + b) == Present(s, a) + Present(s, b)
    decreases |a|
  {
    if |a| > 0 {
      PresentAppend(s, a[1..], b);
      assert (a + b)[1..] == a[1..] + b;
    } else {
      assert a + b == b;
    }
  }

  lemma GrayIsGroup(s: GitStatus)
    ensures Gray(s) == Group(s, GrayCounters)
  {
    var ks := GrayCounters;
    assert Present(s, ks[1..]) == [];
  }

  lemma SegmentsAppend(a: seq<(Counter, nat)>, b: seq<(Counter, nat)>)
    ensures Segments(a + b) == Segments(a) + Segments(b)
  {
  }

  /** The segments of all counters in display order are the green, yellow,
      gray and red segments one after the other. */
  lemma DisplaySegments(s: GitStatus)
    ensures Segments(Present(s, DisplayOrder))
         == Segments(Present(s, GreenCounters)) + Segments(Present(s, YellowCounters))
          + Segments(Present(s, GrayCounters)) + Segments(Present(s, RedCounters))
  {
    var g := Present(s, GreenCounters);
    var y := Present(s, YellowCounters);
    var gr := Present(s, GrayCounters);
    var rd := Present(s, RedCounters);
    PresentAppend(s, GreenCounters, YellowCounters);
    PresentAppend(s, GreenCounters + YellowCounters, GrayCounters);
    PresentAppend(s, GreenCounters + YellowCounters + GrayCounters, RedCounters);
    assert Present(s, DisplayOrder) == g + y + gr + rd;
    SegmentsAppend(g + y + gr, rd);
    SegmentsAppend(g + y, gr);
    SegmentsAppend(g, y);
  }

  lemma FlattenSix(a: seq<string>, b: seq<string>, c: seq<string>, d: seq<string>, e: seq<string>, f: seq<string>)
    ensures Flatten([a, b, c, d, e, f]) == a + b + c + d + e + f
  {
    var t6 := [f];
    assert t6[1..] == [];
    var t5 := [e, f];
    assert t5[1..] == t6;
    var t4 := [d, e, f];
    assert t4[1..] == t5;
    var t3 := [c, d, e, f];
    assert t3[1..] == t4;
    var t2 := [b, c, d, e, f];
    assert t2[1..] == t3;
    var t1 := [a, b, c, d, e, f];
    assert t1[1..] == t2;
    assert Flatten(t6) == f;
    assert Flatten(t5) == e + f;
    assert Flatten(t4) == d + e + f;
    assert Flatten(t3) == c + d + e + f;
    assert Flatten(t2) == b + c + d + e + f;
  }

  /** The six slots the renderer pushes, as groups of words: the remote slot
      has none, the identity at most one, each colour group its segments. */
  lemma SlotsAsGroups(s: GitStatus)
    ensures JoinEach(" ", [[], IdentityWords(s), Segments(Present(s, GreenCounters)),
                           Segments(Present(s, YellowCounters)), Segments(Present(s, GrayCounters)),
                           Segments(Present(s, RedCounters))])
         == [RemoteSlot(s), BranchTag(s), Green(s), Yellow(s), Gray(s), Red(s)]
  {
    var r := JoinEach(" ", [[], IdentityWords(s), Segments(Present(s, GreenCounters)),
                           Segments(Present(s, YellowCounters)), Segments(Present(s, GrayCounters)),
                           Segments(Present(s, RedCounters))]);
    GrayIsGroup(s);
    assert r[0] == RemoteSlot(s) && r[1] == BranchTag(s);
    assert r[2] == Green(s) && r[3] == Yellow(s) && r[4] == Gray(s) && r[5] == Red(s);
  }

  /** The six slots as groups of words. */
  function SlotGroups(s: GitStatus): seq<seq<string>> {
    [[], IdentityWords(s), Segments(Present(s, GreenCounters)),
     Segments(Present(s, YellowCounters)), Segments(Present(s, GrayCounters)),
     Segments(Present(s, RedCounters))]
  }

  /** Joining the non-empty slots is joining all their words at once. */
  lemma JoinSlots(s: GitStatus)
    requires BranchTag(s) == "" || Displayable(BranchTag(s))
    ensures Join(" ", NonEmpty([RemoteSlot(s), BranchTag(s), Green(s), Yellow(s), Gray(s), Red(s)]))
         == Join(" ", Flatten(SlotGroups(s)))
  {
    var groups := SlotGroups(s);
    SegmentsShape(Present(s, GreenCounters));
    SegmentsShape(Present(s, YellowCounters));
    SegmentsShape(Present(s, GrayCounters));
    SegmentsShape(Present(s, RedCounters));
    assert forall i :: 0 <= i < |groups| ==> AllNonEmpty(groups[i]);
    SlotsAsGroups(s);
    JoinNested(" ", groups);
  }

  /** Flattening the six slots: no words from the remote, then the identity
      and the four colour groups in order. */
  lemma FlattenFive(i: seq<string>, g: seq<string>, y: seq<string>, gr: seq<string>, rd: seq<string>)
    ensures Flatten([[], i, g, y, gr, rd]) == i + (g + y + gr + rd)
  {
    FlattenSix([], i, g, y, gr, rd);
    assert [] + i + g + y + gr + rd == i + (g + y + gr + rd);
  }

  lemma FlattenSlots(s: GitStatus)
    ensures Flatten(SlotGroups(s)) == IdentityWords(s) + Segments(Present(s, DisplayOrder))
  {
    FlattenFive(IdentityWords(s), Segments(Present(s, GreenCounters)), Segments(Present(s, YellowCounters)),
                Segments(Present(s, GrayCounters)), Segments(Present(s, RedCounters)));
    DisplaySegments(s);
  }

  /** When the identity is empty or displayable, the rendered line is a
      single space followed by the identity word and every segment of a
      non-zero counter in display order, separated by single spaces. */
  lemma RenderWords(s: GitStatus)
    requires BranchTag(s) == "" || Displayable(BranchTag(s))
    ensures Render(s) == " " + Join(" ", IdentityWords(s) + Segments(Present(s, DisplayOrder)))
  {
    var words := IdentityWords(s) + Segments(Present(s, DisplayOrder));
    JoinSlots(s);
    FlattenSlots(s);
    TrimJoinedWords(IdentityWords(s), Present(s, DisplayOrder));
    assert Trim(Join(" ", words)) == Join(" ", words);
  }

  /** The words of a line, the identity (if any) then segments, begin with a
      character that is not whitespace. */
  lemma WordsStart(ids: seq<string>, es: seq<(Counter, nat)>)
    requires ids == [] || (|ids| == 1 && Displayable(ids[0]))
    requires |ids + Segments(es)| > 0
    ensures |(ids + Segments(es))[0]| > 0 && !IsWhitespace((ids + Segments(es))[0][0])
  {
    if ids == [] {
      SegmentShape(es[0].0, es[0].1);
      assert (ids + Segments(es))[0] == Segment(es[0].0, es[0].1);
    }
  }

  /** The words of a line, the identity (if any) then segments, end with a
      character that is not whitespace. */
  lemma WordsEnd(ids: seq<string>, es: seq<(Counter, nat)>)
    requires ids == [] || (|ids| == 1 && Displayable(ids[0]))
    requires |ids + Segments(es)| > 0
    ensures var last := (ids + Segments(es))[|ids + Segments(es)| - 1];
            |last| > 0 && !IsWhitespace(last[|last| - 1])
  {
    if |es| > 0 {
      var k := es[|es| - 1];
      SegmentShape(k.0, k.1);
      assert (ids + Segments(es))[|ids + Segments(es)| - 1] == Segment(k.0, k.1);
    }
  }

  /** The identity (if any) and the segments are non-empty, space-free words. */
  lemma WordsShape(ids: seq<string>, es: seq<(Counter, nat)>)
    requires ids == [] || (|ids| == 1 && Displayable(ids[0]))
    ensures AllNonEmpty(ids + Segments(es))
    ensures forall i :: 0 <= i < |ids + Segments(es)| ==> ' ' !in (ids + Segments(es))[i]
  {
    SegmentsShape(es);
  }

  /** Words led by at most one displayable identity and followed by segments
      neither start nor end with whitespace once joined, so `trim` keeps them. */
  lemma TrimJoinedWords(ids: seq<string>, es: seq<(Counter, nat)>)
    requires ids == [] || (|ids| == 1 && Displayable(ids[0]))
    ensures Trim(Join(" ", ids + Segments(es))) == Join(" ", ids + Segments(es))
  {
    var words := ids + Segments(es);
    WordsShape(ids, es);
    if |words| > 0 {
      WordsStart(ids, es);
      WordsEnd(ids, es);
    }
    TrimJoin(" ", words);
  }

  /** Every counter has its place in the display order. */
  lemma DisplayOrderComplete(k: Counter)
    ensures k in DisplayOrder
  {
    assert DisplayOrder == [IndexNew, IndexModified, IndexRenamed, IndexTypechange,
                            WtNew, WtModified, WtRenamed, WtTypechange, Ahead, Behind,
                            Ignored, IndexDeleted, WtDeleted, Conflicted];
  }

  /** `Present` keeps exactly the non-zero counters of `ks`, each with its value. */
  lemma {:induction false} PresentMembers(s: GitStatus, ks: seq<Counter>)
    ensures forall i :: 0 <= i < |Present(s, ks)| ==>
              Present(s, ks)[i].0 in ks && Present(s, ks)[i].1 == s.Count(Present(s, ks)[i].0) > 0
    ensures forall k :: k in ks && s.Count(k) > 0 ==> (k, s.Count(k)) in Present(s, ks)
    decreases |ks|
  {
    if |ks| > 0 {
      PresentMembers(s, ks[1..]);
      var head := if s.Count(ks[0]) > 0 then [(ks[0], s.Count(ks[0]))] else [];
      assert Present(s, ks) == head + Present(s, ks[1..]);
      forall k | k in ks && s.Count(k) > 0
        ensures (k, s.Count(k)) in Present(s, ks)
      {
        if k != ks[0] {
          assert k in ks[1..];
        }
      }
    }
  }

  /** A counter's position in the display order. */
  function Rank(k: Counter): nat {
    match k
    case IndexNew => 0
    case IndexModified => 1
    case IndexRenamed => 2
    case IndexTypechange => 3
    case WtNew => 4
    case WtModified => 5
    case WtRenamed => 6
    case WtTypechange => 7
    case Ahead => 8
    case Behind => 9
    case Ignored => 10
    case IndexDeleted => 11
    case WtDeleted => 12
    case Conflicted => 13
  }

  predicate RankIncreasing(ks: seq<Counter>) {
    forall i, j :: 0 <= i < j < |ks| ==> Rank(ks[i]) < Rank(ks[j])
  }

  /** The display order lists the counters by rank. */
  lemma DisplayOrderRanked()
    ensures RankIncreasing(DisplayOrder)
    ensures forall i :: 0 <= i < |DisplayOrder| ==> Rank(DisplayOrder[i]) == i
  {
  }

  /** `Present` keeps the order of `ks`: kept counters appear by increasing
      rank when `ks` lists them that way. */
  lemma {:induction false} PresentInOrder(s: GitStatus, ks: seq<Counter>)
    requires RankIncreasing(ks)
    ensures forall i, j :: 0 <= i < j < |Present(s, ks)| ==> Rank(Present(s, ks)[i].0) < Rank(Present(s, ks)[j].0)
    decreases |ks|
  {
    if |ks| > 0 {
      var rest := Present(s, ks[1..]);
      PresentInOrder(s, ks[1..]);
      PresentMembers(s, ks[1..]);
      var head := if s.Count(ks[0]) > 0 then [(ks[0], s.Count(ks[0]))] else [];
      assert Present(s, ks) == head + rest;
      forall j | 0 <= j < |rest|
        ensures Rank(ks[0]) < Rank(rest[j].0)
      {
        var b :| 0 <= b < |ks[1..]| && ks[1..][b] == rest[j].0;
        assert ks[b + 1] == rest[j].0;
      }
    }
  }

  /** The value a reading records for a counter: 0 when it has no segment. */
  function Lookup(es: seq<(Counter, nat)>, k: Counter): nat {
    if |es| == 0 then 0 else if es[0].0 == k then es[0].1 else Lookup(es[1..], k)
  }

  lemma {:induction false} LookupPresent(s: GitStatus, ks: seq<Counter>, k: Counter)
    ensures Lookup(Present(s, ks), k) == (if k in ks then s.Count(k) else 0)
    decreases |ks|
  {
    if |ks| > 0 {
      LookupPresent(s, ks[1..], k);
      var head := if s.Count(ks[0]) > 0 then [(ks[0], s.Count(ks[0]))] else [];
      var es := Present(s, ks);
      assert es == head + Present(s, ks[1..]);
      assert k in ks <==> k == ks[0] || k in ks[1..];
      if head != [] {
        assert es[0] == (ks[0], s.Count(ks[0]));
        assert es[1..] == Present(s, ks[1..]);
        if ks[0] != k {
          assert Lookup(es, k) == Lookup(Present(s, ks[1..]), k);
        }
      } else {
        assert es == Present(s, ks[1..]);
      }
    }
  }

  /** A line whose words after the leading space are an identity and the
      segments of positive values reads back as that identity and those values. */
  lemma ParseWords(line: string, w: string, es: seq<(Counter, nat)>)
    requires |line| > 1 && line[0] == ' '
    requires Split(line[1..], ' ') == [w] + Segments(es)
    requires forall i :: 0 <= i < |es| ==> es[i].1 > 0
    ensures Parse(line) == Some(Reading(w, es))
  {
    ParseSegmentsInverse(es);
    assert Split(line[1..], ' ')[1..] == Segments(es);
  }

  /** The rendered line reads back as its identity word followed by the
      non-zero counters with their values, in display order. */
  lemma RenderParse(s: GitStatus)
    requires Displayable(BranchTag(s))
    ensures Parse(Render(s)) == Some(Reading(BranchTag(s), Present(s, DisplayOrder)))
  {
    var es := Present(s, DisplayOrder);
    SplitOfRender(s);
    PresentMembers(s, DisplayOrder);
    ParseWords(Render(s), BranchTag(s), es);
  }

  /** Every counter can be read back from the line: its recorded value is the
      counter itself, zero when the line shows no segment for it. */
  lemma RenderRecoversCounters(s: GitStatus, k: Counter)
    requires Displayable(BranchTag(s))
    ensures Parse(Render(s)).Some?
    ensures Lookup(Parse(Render(s)).value.counters, k) == s.Count(k)
  {
    RenderParse(s);
    LookupPresent(s, DisplayOrder, k);
    DisplayOrderComplete(k);
  }

  /** Two snapshots with displayable identities render alike exactly when
      they agree on the identity and on all fourteen counters. */
  lemma RenderInjective(s1: GitStatus, s2: GitStatus)
    requires Displayable(BranchTag(s1)) && Displayable(BranchTag(s2))
    ensures Render(s1) == Render(s2) <==>
              BranchTag(s1) == BranchTag(s2) && forall k :: s1.Count(k) == s2.Count(k)
  {
    if Render(s1) == Render(s2) {
      RenderParse(s1);
      RenderParse(s2);
      forall k
        ensures s1.Count(k) == s2.Count(k)
      {
        RenderRecoversCounters(s1, k);
        RenderRecoversCounters(s2, k);
      }
    }
    if BranchTag(s1) == BranchTag(s2) && forall k :: s1.Count(k) == s2.Count(k) {
      PresentSameCounts(s1, s2, DisplayOrder);
      RenderWords(s1);
      RenderWords(s2);
    }
  }

  lemma {:induction false} PresentSameCounts(s1: GitStatus, s2: GitStatus, ks: seq<Counter>)
    requires forall k :: s1.Count(k) == s2.Count(k)
    ensures Present(s1, ks) == Present(s2, ks)
    decreases |ks|
  {
    if |ks| > 0 {
      PresentSameCounts(s1, s2, ks[1..]);
    }
  }

  /** Among segments of positive values, the segment of `(k, n)` occurs
      exactly when the entry `(k, n)` does. */
  lemma SegmentInSegmentsIff(es: seq<(Counter, nat)>, k: Counter, n: nat)
    requires forall i :: 0 <= i < |es| ==> es[i].1 > 0
    ensures Segment(k, n) in Segments(es) <==> n > 0 && (k, n) in es
  {
    if (k, n) in es {
      var i :| 0 <= i < |es| && es[i] == (k, n);
      assert Segments(es)[i] == Segment(k, n);
    }
    if Segment(k, n) in Segments(es) {
      var i :| 0 <= i < |es| && Segments(es)[i] == Segment(k, n);
      ParseSegmentInverse(k, n);
      ParseSegmentInverse(es[i].0, es[i].1);
    }
  }

  /** On the rendered line, a counter's segment with value `n` appears after
      the identity word exactly when `n` is the counter's non-zero value: a
      zero counter leaves no trace and no segment carries a wrong value. */
  lemma SegmentAppearsIffCounted(s: GitStatus, k: Counter, n: nat)
    requires Displayable(BranchTag(s))
    ensures Segment(k, n) in Split(Render(s)[1..], ' ')[1..] <==> n > 0 && n == s.Count(k)
  {
    var es := Present(s, DisplayOrder);
    SplitOfRender(s);
    assert Split(Render(s)[1..], ' ')[1..] == Segments(es);
    PresentMembers(s, DisplayOrder);
    SegmentInSegmentsIff(es, k, n);
    DisplayOrderComplete(k);
  }

  /** The words after the line's leading space: the identity, then the segments. */
  lemma SplitOfRender(s: GitStatus)
    requires Displayable(BranchTag(s))
    ensures |Render(s)| > 1
    ensures Split(Render(s)[1..], ' ') == [BranchTag(s)] + Segments(Present(s, DisplayOrder))
  {
    var words := [BranchTag(s)] + Segments(Present(s, DisplayOrder));
    RenderWords(s);
    WordsShape([BranchTag(s)], Present(s, DisplayOrder));
    JoinEnds(" ", words);
    assert Render(s)[1..] == Join([' '], words);
    SplitJoin(words, ' ');
  }

  lemma PresentEmptyIff(s: GitStatus, ks: seq<Counter>)
    ensures Present(s, ks) == [] <==> forall k :: k in ks ==> s.Count(k) == 0
  {
    var es := Present(s, ks);
    PresentMembers(s, ks);
    if |es| > 0 {
      assert es[0].0 in ks && s.Count(es[0].0) > 0;
    }
  }

  /** A colour group is empty exactly when all of its counters are zero. */
  lemma GroupEmptyIff(s: GitStatus, ks: seq<Counter>)
    ensures Group(s, ks) == "" <==> forall k :: k in ks ==> s.Count(k) == 0
  {
    var es := Present(s, ks);
    PresentEmptyIff(s, ks);
    SegmentsShape(es);
    if |es| > 0 {
      JoinEnds(" ", Segments(es));
    }
  }

  /** A tag, when there is one, fills the identity slot and the branch has
      no influence on the line. */
  lemma TagOverridesBranch(s: GitStatus, branch: string)
    requires s.tag != ""
    ensures BranchTag(s) == s.tag
    ensures Render(s.(branch := branch)) == Render(s)
  {
    var t := s.(branch := branch);
    PresentSameCounts(t, s, GreenCounters);
    PresentSameCounts(t, s, YellowCounters);
    PresentSameCounts(t, s, RedCounters);
  }

  /** Without a tag the identity slot shows the branch, and the line reads
      back as that branch followed by the non-zero counters. */
  lemma BranchShownWithoutTag(s: GitStatus)
    requires s.tag == "" && Displayable(s.branch)
    ensures Parse(Render(s)) == Some(Reading(s.branch, Present(s, DisplayOrder)))
  {
    RenderParse(s);
  }

  /** The upstream name never reaches the line. */
  lemma RemoteNeverShown(s: GitStatus, remote: string)
    ensures RemoteSlot(s) == ""
    ensures Render(s.(remote := remote)) == Render(s)
  {
    var t := s.(remote := remote);
    PresentSameCounts(t, s, GreenCounters);
    PresentSameCounts(t, s, YellowCounters);
    PresentSameCounts(t, s, RedCounters);
  }

  /** A line of non-empty words is a lone space exactly when there are no words. */
  lemma LineBlankIff(words: seq<string>)
    requires AllNonEmpty(words)
    ensures " " + Join(" ", words) == " " <==> words == []
  {
    if |words| > 0 {
      JoinEnds(" ", words);
    }
  }

  /** The line is a lone space exactly when there is no identity and every
      counter is zero. */
  lemma RenderBlankIff(s: GitStatus)
    requires BranchTag(s) == "" || Displayable(BranchTag(s))
    ensures Render(s) == " " <==> BranchTag(s) == "" && forall k :: s.Count(k) == 0
  {
    var es := Present(s, DisplayOrder);
    var words := IdentityWords(s) + Segments(es);
    RenderWords(s);
    WordsShape(IdentityWords(s), es);
    LineBlankIff(words);
    PresentEmptyIff(s, DisplayOrder);
    assert (forall k :: s.Count(k) == 0) <==> (forall k :: k in DisplayOrder ==> s.Count(k) == 0) by {
      forall k {
        DisplayOrderComplete(k);
      }
    }
  }

  /** A space followed by words that are non-empty and space-free never
      holds two spaces in a row. */
  lemma LineNoDoubleSpace(words: seq<string>)
    requires forall i :: 0 <= i < |words| ==> |words[i]| > 0 && ' ' !in words[i]
    ensures var line := " " + Join(" ", words);
            forall i :: 0 <= i < |line| - 1 ==> line[i] == ' ' ==> line[i + 1] != ' '
  {
    JoinNoDoubleSeparator(words, ' ');
    var joined := Join([' '], words);
    var line := [' '] + joined;
    if |words| > 0 {
      JoinEnds(" ", words);
      assert line[1] == words[0][0];
    }
    forall i | 0 <= i < |line| - 1 && line[i] == ' '
      ensures line[i + 1] != ' '
    {
      if i > 0 {
        assert line[i] == joined[i - 1];
        assert line[i + 1] == joined[i];
      }
    }
  }

  /** The line never holds two spaces in a row. */
  lemma RenderNoDoubleSpace(s: GitStatus)
    requires BranchTag(s) == "" || Displayable(BranchTag(s))
    ensures forall i :: 0 <= i < |Render(s)| - 1 ==> Render(s)[i] == ' ' ==> Render(s)[i + 1] != ' '
  {
    var es := Present(s, DisplayOrder);
    var words := IdentityWords(s) + Segments(es);
    RenderWords(s);
    WordsShape(IdentityWords(s), es);
    LineNoDoubleSpace(words);
  }
}
