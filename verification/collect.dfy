/** Snapshot construction, `GitStatus::init`. Every call into the git
    library is replaced by the outcome it produced, so the model is the
    decision logic that turns those outcomes into a `GitStatus`. */
module Collect {
  import opened Wrappers
  import opened Numerals
  import opened Strings
  import opened Status

  // ---------------------------------------------------------------------
  // Status entries

  /** The bits of git2's `Status` an entry can carry; `Status::CURRENT` is
      the empty set. */
  datatype StatusFlag =
    | IndexNew | IndexModified | IndexDeleted | IndexRenamed | IndexTypechange
    | WtNew | WtModified | WtDeleted | WtTypechange | WtRenamed | WtUnreadable
    | Ignored | Conflicted

  type StatusBits = set<StatusFlag>

  /** The single flag an entry must carry, and nothing besides, to increment
      a counter; the upstream counters have none. */
  function FlagOf(k: Counter): Option<StatusFlag> {
    match k
    case IndexNew => Some(StatusFlag.IndexNew)
    case IndexModified => Some(StatusFlag.IndexModified)
    case IndexDeleted => Some(StatusFlag.IndexDeleted)
    case IndexRenamed => Some(StatusFlag.IndexRenamed)
    case IndexTypechange => Some(StatusFlag.IndexTypechange)
    case WtNew => Some(StatusFlag.WtNew)
    case WtModified => Some(StatusFlag.WtModified)
    case WtDeleted => Some(StatusFlag.WtDeleted)
    case WtRenamed => Some(StatusFlag.WtRenamed)
    case WtTypechange => Some(StatusFlag.WtTypechange)
    case Ignored => Some(StatusFlag.Ignored)
    case Conflicted => Some(StatusFlag.Conflicted)
    case Ahead => None
    case Behind => None
  }

  /** True when an entry's flags are exactly `{FlagOf(k)}`. */
  predicate Matches(bits: StatusBits, k: Counter) {
    FlagOf(k).Some? && bits == {FlagOf(k).value}
  }

  /** An entry that some counter takes: one flag alone, other than `WT_UNREADABLE`. */
  predicate Counted(bits: StatusBits) {
    |bits| == 1 && StatusFlag.WtUnreadable !in bits
  }

  function BumpIf(s: GitStatus, hit: bool, k: Counter): GitStatus {
    if hit then s.Bump(k) else s
  }

  /** The counters the closure tests, in the order of its twelve `if`s. */
  const FileCounters: seq<Counter> := [
    Counter.IndexNew, Counter.IndexModified, Counter.IndexDeleted, Counter.IndexRenamed,
    Counter.IndexTypechange, Counter.WtNew, Counter.WtModified, Counter.WtDeleted,
    Counter.WtRenamed, Counter.WtTypechange, Counter.Ignored, Counter.Conflicted]

  /** The tests for the counters `ks`, one after another, each comparing the
      entry's whole flag set with the counter's single flag. */
  function TallyOver(s: GitStatus, bits: StatusBits, ks: seq<Counter>): GitStatus
    decreases |ks|
  {
    if |ks| == 0 then s else TallyOver(BumpIf(s, Matches(bits, ks[0]), ks[0]), bits, ks[1..])
  }

  /** One call of the `for_each` closure on an entry with flags `bits`. */
  function Tally(s: GitStatus, bits: StatusBits): GitStatus {
    TallyOver(s, bits, FileCounters)
  }

  /** The whole `for_each` over the status list, in list order. */
  function CountEntries(s: GitStatus, entries: seq<StatusBits>): GitStatus {
    if |entries| == 0 then s
    else Tally(CountEntries(s, entries[..|entries| - 1]), entries[|entries| - 1])
  }

  /** How many entries carry exactly the flags `bits`. */
  function Occurrences(entries: seq<StatusBits>, bits: StatusBits): nat {
    if |entries| == 0 then 0
    else Occurrences(entries[..|entries| - 1], bits) + (if entries[|entries| - 1] == bits then 1 else 0)
  }

  /** How many entries some counter takes. */
  function CountedEntries(entries: seq<StatusBits>): (n: nat)
    ensures n <= |entries|
  {
    if |entries| == 0 then 0
    else CountedEntries(entries[..|entries| - 1]) + (if Counted(entries[|entries| - 1]) then 1 else 0)
  }

  // ---------------------------------------------------------------------
  // HEAD, upstream and tag

  /** A commit id: the 20 bytes of a SHA-1 object name. */
  type Oid = id: seq<byte> | |id| == 20 witness seq(20, _ => 0)

  /** A git2 error code as the branch chain sees it: it tests only for the
      bare-repository code, and every other code behaves like `OtherError`. */
  datatype ErrorCode = BareRepo | OtherError

  /** What `repo.head()` gave: a reference, with its `shorthand()` and the
      result of `peel_to_commit()`, or an error code. */
  datatype HeadOutcome =
    | Resolved(shorthand: Option<string>, commit: Option<Oid>)
    | Failed(code: ErrorCode)

  /** What the upstream lookup of the current branch gave. `NoLocalBranch`:
      `find_branch` failed; `NoUpstream`: `upstream()` failed; otherwise the
      `graph_ahead_behind` counts (absent when either tip has no target or
      the walk fails) and the upstream's `name()` (absent on error or when
      it is not valid UTF-8). */
  datatype UpstreamOutcome =
    | NoLocalBranch
    | NoUpstream
    | Tracked(divergence: Option<(nat, nat)>, name: Option<string>)

  /** What the branch chain produces besides the counters. */
  datatype Identity = Identity(branch: string, remote: string, ahead: nat, behind: nat)

  /** `x as u16` on a `usize`: the value modulo 2^16. */
  function AsU16(x: nat): (r: nat)
    ensures r < 0x1_0000
    ensures x < 0x1_0000 ==> r == x
  {
    x % 0x1_0000
  }

  /** `format!("{byte:x}")` for each byte in turn. */
  function HexBytes(bs: seq<byte>): (r: string)
    ensures |bs| <= |r| <= 2 * |bs|
    ensures forall i :: 0 <= i < |r| ==> IsHexDigit(r[i])
    ensures |r| == 2 * |bs| <==> forall i :: 0 <= i < |bs| ==> bs[i] >= 16
  {
    if |bs| == 0 then "" else ByteHex(bs[0]) + HexBytes(bs[1..])
  }

  /** The label of a detached HEAD: the first four bytes of the commit id,
      each in unpadded lower-case hex. */
  function DetachedLabel(id: Oid): string {
    HexBytes(id[..4])
  }

  /** The zero-padded hex spelling of an id, as git prints object names. */
  function PaddedHex(bs: seq<byte>): (r: string)
    ensures |r| == 2 * |bs|
  {
    if |bs| == 0 then "" else PaddedByteHex(bs[0]) + PaddedHex(bs[1..])
  }

  /** The remote name and the truncated divergence counts the upstream
      lookup yields; empty and zero unless the upstream resolves. */
  function Track(up: UpstreamOutcome): (string, nat, nat) {
    match up
    case Tracked(divergence, name) =>
      var remote := if name.Some? then name.value else "";
      if divergence.Some? then (remote, AsU16(divergence.value.0), AsU16(divergence.value.1))
      else (remote, 0, 0)
    case _ => ("", 0, 0)
  }

  /** The branch-resolution chain of `GitStatus::init`. */
  function ResolveHead(head: HeadOutcome, isEmpty: Option<bool>, up: UpstreamOutcome): (id: Identity)
    ensures id.ahead < 0x1_0000 && id.behind < 0x1_0000
    ensures head.Resolved? && head.shorthand.Some? && head.shorthand.value != "HEAD" ==>
              id.branch == head.shorthand.value
    ensures head.Resolved? && head.shorthand == Some("HEAD") ==>
              id.branch == (if head.commit.Some? then DetachedLabel(head.commit.value) else "HEAD")
    ensures head.Resolved? && head.shorthand.None? ==> id.branch == "HEAD"
    ensures head.Failed? ==> (id.branch == "master" <==> head.code.BareRepo? || isEmpty == Some(true))
    ensures head.Failed? ==> id.branch == "master" || id.branch == "HEAD"
    ensures !(head.Resolved? && head.shorthand.Some? && head.shorthand.value != "HEAD" && up.Tracked?) ==>
              id.remote == "" && id.ahead == 0 && id.behind == 0
  {
    match head
    case Resolved(Some(name), commit) =>
      if name == "HEAD" then
        Identity(if commit.Some? then DetachedLabel(commit.value) else "HEAD", "", 0, 0)
      else
        var (remote, ahead, behind) := Track(up);
        Identity(name, remote, ahead, behind)
    case Resolved(None, _) => Identity("HEAD", "", 0, 0)
    case Failed(BareRepo) => Identity("master", "", 0, 0)
    case Failed(_) => Identity(if isEmpty == Some(true) then "master" else "HEAD", "", 0, 0)
  }

  /** The tag from `git describe --tags --abbrev=0`: the trimmed standard
      output when the command succeeded with valid UTF-8, else empty. */
  function DescribedTag(stdout: Option<string>): (tag: string)
    ensures stdout.None? ==> tag == ""
    ensures stdout.Some? ==> tag == Trim(stdout.value)
    ensures |tag| > 0 ==> !IsWhitespace(tag[0]) && !IsWhitespace(tag[|tag| - 1])
  {
    match stdout
    case None => ""
    case Some(out) => Trim(out)
  }

  /** The outcomes of every git call `GitStatus::init` makes on an opened repository. */
  datatype Repository = Repository(
    head: HeadOutcome,
    isEmpty: Option<bool>,
    upstream: UpstreamOutcome,
    describe: Option<string>,
    statuses: Option<seq<StatusBits>>)

  /** `GitStatus::init`: `None` when the repository cannot be opened
      (`repo` is `None`) or its status list cannot be read. */
  function Init(repo: Option<Repository>): (r: Option<GitStatus>)
    ensures r.Some? <==> repo.Some? && repo.value.statuses.Some?
  {
    match repo
    case None => None
    case Some(repo) =>
      var id := ResolveHead(repo.head, repo.isEmpty, repo.upstream);
      var tag := DescribedTag(repo.describe);
      match repo.statuses
      case None => None
      case Some(entries) => Some(CountEntries(Fresh(id.branch, tag, id.remote, id.ahead, id.behind), entries))
  }

  // ---------------------------------------------------------------------
  // Lemmas: classification

  predicate Distinct(ks: seq<Counter>) {
    forall i, j :: 0 <= i < j < |ks| ==> ks[i] != ks[j]
  }

  /** No two counters share a flag, so a flag set matches at most one counter. */
  lemma MatchUnique(bits: StatusBits, j: Counter, k: Counter)
    requires Matches(bits, j) && Matches(bits, k)
    ensures j == k
  {
    assert FlagOf(j).value in bits;
  }

  /** The twelve tests cover exactly the file counters, each once. */
  lemma FileCountersShape(k: Counter)
    ensures Distinct(FileCounters)
    ensures k in FileCounters <==> IsFileCounter(k)
  {
  }

  lemma {:induction false} TallyOverCount(s: GitStatus, bits: StatusBits, ks: seq<Counter>, k: Counter)
    requires Distinct(ks)
    ensures TallyOver(s, bits, ks).Count(k) == s.Count(k) + (if k in ks && Matches(bits, k) then 1 else 0)
    ensures TallyOver(s, bits, ks).branch == s.branch && TallyOver(s, bits, ks).tag == s.tag
    ensures TallyOver(s, bits, ks).remote == s.remote
    decreases |ks|
  {
    if |ks| > 0 {
      var t := BumpIf(s, Matches(bits, ks[0]), ks[0]);
      TallyOverCount(t, bits, ks[1..], k);
      assert k in ks <==> k == ks[0] || k in ks[1..];
      assert k == ks[0] ==> k !in ks[1..];
    }
  }

  lemma {:induction false} TallyOverTotal(s: GitStatus, bits: StatusBits, ks: seq<Counter>)
    requires Distinct(ks)
    requires forall i :: 0 <= i < |ks| ==> IsFileCounter(ks[i])
    ensures TallyOver(s, bits, ks).FileTotal()
         == s.FileTotal() + (if exists i :: 0 <= i < |ks| && Matches(bits, ks[i]) then 1 else 0)
    ensures TallyOver(s, bits, ks).ahead == s.ahead && TallyOver(s, bits, ks).behind == s.behind
    decreases |ks|
  {
    if |ks| > 0 {
      var t := BumpIf(s, Matches(bits, ks[0]), ks[0]);
      BumpTotal(s, ks[0]);
      TallyOverCount(s, bits, [ks[0]], Counter.Ahead);
      TallyOverCount(s, bits, [ks[0]], Counter.Behind);
      TallyOverTotal(t, bits, ks[1..]);
      if Matches(bits, ks[0]) {
        forall i | 0 <= i < |ks[1..]|
          ensures !Matches(bits, ks[1..][i])
        {
          if Matches(bits, ks[1..][i]) {
            MatchUnique(bits, ks[0], ks[1..][i]);
          }
        }
      }
      if i :| 0 <= i < |ks| && Matches(bits, ks[i]) {
        if i > 0 {
          assert Matches(bits, ks[1..][i - 1]);
        }
      }
    }
  }

  /** One entry increments the counter whose single flag its flag set equals,
      by one, and nothing else; an entry with several flags, none, or only
      `WT_UNREADABLE` changes nothing. */
  lemma TallyCount(s: GitStatus, bits: StatusBits, k: Counter)
    ensures Tally(s, bits).Count(k) == s.Count(k) + (if Matches(bits, k) then 1 else 0)
    ensures Tally(s, bits).branch == s.branch && Tally(s, bits).tag == s.tag
    ensures Tally(s, bits).remote == s.remote
  {
    FileCountersShape(k);
    TallyOverCount(s, bits, FileCounters, k);
  }

  /** A flag set of one element is that element's singleton. */
  lemma SingleFlag(bits: StatusBits) returns (f: StatusFlag)
    requires |bits| == 1
    ensures bits == {f}
  {
    f :| f in bits;
    assert |bits - {f}| == 0;
  }

  /** Some counter takes an entry exactly when its flags are one counted flag alone. */
  lemma CountedIff(bits: StatusBits)
    ensures Counted(bits) <==> exists k :: Matches(bits, k)
  {
    if Counted(bits) {
      var f := SingleFlag(bits);
      var k := match f
        case IndexNew => Counter.IndexNew
        case IndexModified => Counter.IndexModified
        case IndexDeleted => Counter.IndexDeleted
        case IndexRenamed => Counter.IndexRenamed
        case IndexTypechange => Counter.IndexTypechange
        case WtNew => Counter.WtNew
        case WtModified => Counter.WtModified
        case WtDeleted => Counter.WtDeleted
        case WtTypechange => Counter.WtTypechange
        case WtRenamed => Counter.WtRenamed
        case WtUnreadable => assert false; Counter.Ahead
        case Ignored => Counter.Ignored
        case Conflicted => Counter.Conflicted;
      assert Matches(bits, k);
    }
  }

  /** Some one of the twelve tests fires exactly when the entry is counted. */
  lemma CountedHit(bits: StatusBits)
    ensures Counted(bits) <==> exists i :: 0 <= i < |FileCounters| && Matches(bits, FileCounters[i])
  {
    var ks := FileCounters;
    CountedIff(bits);
    if Counted(bits) {
      var k :| Matches(bits, k);
      FileCountersShape(k);
      var i :| 0 <= i < |ks| && ks[i] == k;
      assert Matches(bits, ks[i]);
    }
  }

  /** An entry adds one to the file total exactly when some counter takes it. */
  lemma TallyTotal(s: GitStatus, bits: StatusBits)
    ensures Tally(s, bits).FileTotal() == s.FileTotal() + (if Counted(bits) then 1 else 0)
    ensures Tally(s, bits).ahead == s.ahead && Tally(s, bits).behind == s.behind
  {
    FileCountersShape(Counter.Ahead);
    TallyOverTotal(s, bits, FileCounters);
    CountedHit(bits);
  }

  /** After the whole list, each counter has grown by the number of entries
      whose flag set is exactly its flag. */
  lemma {:induction false} CountEntriesCount(s: GitStatus, entries: seq<StatusBits>, k: Counter)
    ensures CountEntries(s, entries).Count(k)
         == s.Count(k) + (if FlagOf(k).Some? then Occurrences(entries, {FlagOf(k).value}) else 0)
    decreases |entries|
  {
    if |entries| > 0 {
      var init := entries[..|entries| - 1];
      CountEntriesCount(s, init, k);
      TallyCount(CountEntries(s, init), entries[|entries| - 1], k);
    }
  }

  /** Counting leaves the identity and the upstream data alone. */
  lemma {:induction false} CountEntriesKeeps(s: GitStatus, entries: seq<StatusBits>)
    ensures CountEntries(s, entries).branch == s.branch
    ensures CountEntries(s, entries).tag == s.tag
    ensures CountEntries(s, entries).remote == s.remote
    ensures CountEntries(s, entries).ahead == s.ahead
    ensures CountEntries(s, entries).behind == s.behind
    decreases |entries|
  {
    if |entries| > 0 {
      var init := entries[..|entries| - 1];
      CountEntriesKeeps(s, init);
      TallyCount(CountEntries(s, init), entries[|entries| - 1], Counter.Ahead);
      TallyTotal(CountEntries(s, init), entries[|entries| - 1]);
    }
  }

  /** The file counters together grow by the number of counted entries. */
  lemma {:induction false} CountEntriesTotal(s: GitStatus, entries: seq<StatusBits>)
    ensures CountEntries(s, entries).FileTotal() == s.FileTotal() + CountedEntries(entries)
    decreases |entries|
  {
    if |entries| > 0 {
      var init := entries[..|entries| - 1];
      CountEntriesTotal(s, init);
      TallyTotal(CountEntries(s, init), entries[|entries| - 1]);
    }
  }

  /** Every entry is counted exactly when the counted entries are all of them. */
  lemma {:induction false} CountedEntriesAll(entries: seq<StatusBits>)
    ensures CountedEntries(entries) == |entries| <==> forall i :: 0 <= i < |entries| ==> Counted(entries[i])
    decreases |entries|
  {
    if |entries| > 0 {
      var init := entries[..|entries| - 1];
      CountedEntriesAll(init);
      if forall i :: 0 <= i < |entries| ==> Counted(entries[i]) {
        assert forall i :: 0 <= i < |init| ==> Counted(init[i]) by {
          forall i | 0 <= i < |init| ensures Counted(init[i]) {
            assert init[i] == entries[i];
          }
        }
      }
      if CountedEntries(entries) == |entries| {
        forall i | 0 <= i < |entries| ensures Counted(entries[i]) {
          if i < |init| {
            assert init[i] == entries[i];
          }
        }
      }
    }
  }

  /** The file counters never add up to more than the number of entries,
      and reach it exactly when every entry carries one counted flag alone. */
  lemma CountEntriesBound(s: GitStatus, entries: seq<StatusBits>)
    requires s.FileTotal() == 0
    ensures CountEntries(s, entries).FileTotal() <= |entries|
    ensures CountEntries(s, entries).FileTotal() == |entries| <==>
              forall i :: 0 <= i < |entries| ==> Counted(entries[i])
  {
    CountEntriesTotal(s, entries);
    CountedEntriesAll(entries);
  }

  // ---------------------------------------------------------------------
  // Lemmas: the detached-HEAD label

  /** How many of the bytes need two hex digits. */
  function WideBytes(bs: seq<byte>): (n: nat)
    ensures n <= |bs|
  {
    if |bs| == 0 then 0 else (if bs[0] >= 16 then 1 else 0) + WideBytes(bs[1..])
  }

  /** Each byte contributes one digit, and a second one when it is 16 or more. */
  lemma {:induction false} HexBytesLength(bs: seq<byte>)
    ensures |HexBytes(bs)| == |bs| + WideBytes(bs)
    decreases |bs|
  {
    if |bs| > 0 {
      HexBytesLength(bs[1..]);
    }
  }

  /** Without bytes below 16, unpadded hex is git's padded spelling. */
  lemma {:induction false} HexBytesPadded(bs: seq<byte>)
    requires forall i :: 0 <= i < |bs| ==> bs[i] >= 16
    ensures HexBytes(bs) == PaddedHex(bs)
    decreases |bs|
  {
    if |bs| > 0 {
      HexBytesPadded(bs[1..]);
      ByteHexPadding(bs[0]);
    }
  }

  /** The padded spelling of a prefix of the bytes is the matching prefix of the spelling. */
  lemma {:induction false} PaddedHexPrefix(bs: seq<byte>, n: nat)
    requires n <= |bs|
    ensures PaddedHex(bs)[..2 * n] == PaddedHex(bs[..n])
    decreases n
  {
    if n > 0 {
      PaddedHexPrefix(bs[1..], n - 1);
      assert bs[..n][1..] == bs[1..][..n - 1];
      var h := PaddedByteHex(bs[0]);
      assert PaddedHex(bs) == h + PaddedHex(bs[1..]);
      assert PaddedHex(bs)[..2 * n] == h + PaddedHex(bs[1..])[..2 * (n - 1)];
    }
  }

  /** The label has four to eight hex digits: one per byte, plus one for
      each of the four bytes that is 16 or more. */
  lemma DetachedLabelLength(id: Oid)
    ensures |DetachedLabel(id)| == 4 + WideBytes(id[..4])
    ensures 4 <= |DetachedLabel(id)| <= 8
    ensures forall i :: 0 <= i < |DetachedLabel(id)| ==> IsHexDigit(DetachedLabel(id)[i])
  {
    HexBytesLength(id[..4]);
  }

  /** The label is the usual eight-digit abbreviation of the commit id
      exactly when none of the first four bytes is below 16. */
  lemma DetachedLabelIsIdPrefix(id: Oid)
    ensures DetachedLabel(id) == PaddedHex(id)[..8] <==> forall i :: 0 <= i < 4 ==> id[i] >= 16
  {
    PaddedHexPrefix(id, 4);
    var bs := id[..4];
    if forall i :: 0 <= i < 4 ==> id[i] >= 16 {
      HexBytesPadded(bs);
    } else {
      assert |HexBytes(bs)| < 8;
    }
  }

  /** Two commits whose ids begin differently can get the same label:
      ids starting `01 23 45 67` and `12 03 45 67` are both labelled `1234567`. */
  lemma DetachedLabelAmbiguous(a: Oid, b: Oid)
    requires a[..4] == [0x01, 0x23, 0x45, 0x67]
    requires b[..4] == [0x12, 0x03, 0x45, 0x67]
    ensures a != b
    ensures DetachedLabel(a) == DetachedLabel(b) == "1234567"
  {
    assert a[0] != b[0];
    HexBytesCons(a[..4]);
    HexBytesCons(b[..4]);
    assert ByteHex(0x01) + ByteHex(0x23) == "123";
    assert ByteHex(0x12) + ByteHex(0x03) == "123";
    assert ByteHex(0x45) + ByteHex(0x67) == "4567";
  }

  lemma HexBytesCons(bs: seq<byte>)
    requires |bs| == 4
    ensures HexBytes(bs) == ByteHex(bs[0]) + ByteHex(bs[1]) + ByteHex(bs[2]) + ByteHex(bs[3])
  {
    var b1 := bs[1..];
    var b2 := b1[1..];
    var b3 := b2[1..];
    assert b3[1..] == [];
    assert HexBytes(b3) == ByteHex(bs[3]);
    assert HexBytes(b2) == ByteHex(bs[2]) + ByteHex(bs[3]);
    assert HexBytes(b1) == ByteHex(bs[1]) + (ByteHex(bs[2]) + ByteHex(bs[3]));
  }

  // ---------------------------------------------------------------------
  // Lemmas: branch chain and snapshot

  /** The branch is never empty, unless git reported an empty shorthand. */
  lemma BranchNonEmpty(head: HeadOutcome, isEmpty: Option<bool>, up: UpstreamOutcome)
    requires head.Resolved? ==> head.shorthand != Some("")
    ensures ResolveHead(head, isEmpty, up).branch != ""
  {
    if head.Resolved? && head.shorthand == Some("HEAD") && head.commit.Some? {
      DetachedLabelLength(head.commit.value);
    }
  }

  /** Upstream data only ever comes from a resolved upstream of a named branch:
      the remote is the upstream's name, the counts its divergence cut to 16 bits. */
  lemma UpstreamProvenance(head: HeadOutcome, isEmpty: Option<bool>, up: UpstreamOutcome)
    ensures var id := ResolveHead(head, isEmpty, up);
            && (id.remote != "" ==> up.Tracked? && up.name == Some(id.remote))
            && ((head.Resolved? && head.shorthand.Some? && head.shorthand.value != "HEAD"
                 && up.Tracked? && up.name.Some?) ==> id.remote == up.name.value)
            && (id.ahead != 0 || id.behind != 0 ==> up.Tracked? && up.divergence.Some?)
            && (head.Resolved? && head.shorthand.Some? && head.shorthand.value != "HEAD"
                && up.Tracked? && up.divergence.Some? ==>
                  id.ahead == up.divergence.value.0 % 0x1_0000 && id.behind == up.divergence.value.1 % 0x1_0000)
  {
  }

  /** The snapshot `GitStatus::init` returns for an opened repository whose
      status list was read: the resolved identity and upstream data, the
      trimmed tag, and for each file counter the number of entries whose
      flag set is exactly that counter's flag. */
  lemma InitSnapshot(repo: Repository, k: Counter)
    requires repo.statuses.Some?
    ensures Init(Some(repo)).Some?
    ensures var s := Init(Some(repo)).value;
            var id := ResolveHead(repo.head, repo.isEmpty, repo.upstream);
            && s.branch == id.branch && s.remote == id.remote
            && s.tag == DescribedTag(repo.describe)
            && s.Count(k) == (if FlagOf(k).Some? then Occurrences(repo.statuses.value, {FlagOf(k).value})
                              else if k == Counter.Ahead then id.ahead else id.behind)
  {
    var id := ResolveHead(repo.head, repo.isEmpty, repo.upstream);
    var start := Fresh(id.branch, DescribedTag(repo.describe), id.remote, id.ahead, id.behind);
    InitFold(repo);
    CountEntriesCount(start, repo.statuses.value, k);
    CountEntriesKeeps(start, repo.statuses.value);
  }

  /** `Init` on a readable repository is the fold over its status entries,
      started from the resolved identity and the tag. */
  lemma InitFold(repo: Repository)
    requires repo.statuses.Some?
    ensures var id := ResolveHead(repo.head, repo.isEmpty, repo.upstream);
            var start := Fresh(id.branch, DescribedTag(repo.describe), id.remote, id.ahead, id.behind);
            Init(Some(repo)) == Some(CountEntries(start, repo.statuses.value))
  {
  }

  /** The snapshot's file counters add up to at most the number of status
      entries, and to exactly that number only when every entry carries one
      flag alone, other than `WT_UNREADABLE`. */
  lemma InitFileTotal(repo: Repository)
    requires repo.statuses.Some?
    ensures Init(Some(repo)).value.FileTotal() <= |repo.statuses.value|
    ensures Init(Some(repo)).value.FileTotal() == |repo.statuses.value| <==>
              forall i :: 0 <= i < |repo.statuses.value| ==> Counted(repo.statuses.value[i])
  {
    var id := ResolveHead(repo.head, repo.isEmpty, repo.upstream);
    var start := Fresh(id.branch, DescribedTag(repo.describe), id.remote, id.ahead, id.behind);
    InitFold(repo);
    CountEntriesBound(start, repo.statuses.value);
  }
}
