/** The snapshot `GitStatus` that collection builds and the renderer reads:
    the display identity, the upstream name and fourteen counters. */
module Status {

  /** One of the snapshot's fourteen counters. */
  datatype Counter =
    | IndexNew | IndexModified | IndexDeleted | IndexRenamed | IndexTypechange
    | WtNew | WtModified | WtDeleted | WtRenamed | WtTypechange
    | Ignored | Conflicted | Ahead | Behind

  /** The twelve counters fed by status entries; `Ahead` and `Behind` come
      from the upstream comparison instead. */
  predicate IsFileCounter(k: Counter) {
    !k.Ahead? && !k.Behind?
  }

  datatype GitStatus = GitStatus(
    branch: string,
    tag: string,
    remote: string,
    indexNew: nat,
    indexModified: nat,
    indexDeleted: nat,
    indexRenamed: nat,
    indexTypechange: nat,
    wtNew: nat,
    wtModified: nat,
    wtDeleted: nat,
    wtRenamed: nat,
    wtTypechange: nat,
    ignored: nat,
    conflicted: nat,
    ahead: nat,
    behind: nat)
  {
    function Count(k: Counter): nat {
      match k
      case IndexNew => indexNew
      case IndexModified => indexModified
      case IndexDeleted => indexDeleted
      case IndexRenamed => indexRenamed
      case IndexTypechange => indexTypechange
      case WtNew => wtNew
      case WtModified => wtModified
      case WtDeleted => wtDeleted
      case WtRenamed => wtRenamed
      case WtTypechange => wtTypechange
      case Ignored => ignored
      case Conflicted => conflicted
      case Ahead => ahead
      case Behind => behind
    }

    /** `counter += 1` on one field: that counter grows by one and nothing
        else in the snapshot changes. */
    function Bump(k: Counter): (s: GitStatus)
      ensures s.Count(k) == Count(k) + 1
      ensures forall j {:trigger s.Count(j)} :: j != k ==> s.Count(j) == Count(j)
      ensures s.branch == branch && s.tag == tag && s.remote == remote
    {
      match k
      case IndexNew => this.(indexNew := indexNew + 1)
      case IndexModified => this.(indexModified := indexModified + 1)
      case IndexDeleted => this.(indexDeleted := indexDeleted + 1)
      case IndexRenamed => this.(indexRenamed := indexRenamed + 1)
      case IndexTypechange => this.(indexTypechange := indexTypechange + 1)
      case WtNew => this.(wtNew := wtNew + 1)
      case WtModified => this.(wtModified := wtModified + 1)
      case WtDeleted => this.(wtDeleted := wtDeleted + 1)
      case WtRenamed => this.(wtRenamed := wtRenamed + 1)
      case WtTypechange => this.(wtTypechange := wtTypechange + 1)
      case Ignored => this.(ignored := ignored + 1)
      case Conflicted => this.(conflicted := conflicted + 1)
      case Ahead => this.(ahead := ahead + 1)
      case Behind => this.(behind := behind + 1)
    }

    /** The number of status entries the snapshot accounts for. */
    function FileTotal(): nat {
      indexNew + indexModified + indexDeleted + indexRenamed + indexTypechange
      + wtNew + wtModified + wtDeleted + wtRenamed + wtTypechange
      + ignored + conflicted
    }
  }

  /** Bumping a file counter adds one to the file total; bumping an
      upstream counter leaves it alone. */
  lemma BumpTotal(s: GitStatus, k: Counter)
    ensures s.Bump(k).FileTotal() == s.FileTotal() + (if IsFileCounter(k) then 1 else 0)
  {
    match k
    case IndexNew =>
    case IndexModified =>
    case IndexDeleted =>
    case IndexRenamed =>
    case IndexTypechange =>
    case WtNew =>
    case WtModified =>
    case WtDeleted =>
    case WtRenamed =>
    case WtTypechange =>
    case Ignored =>
    case Conflicted =>
    case Ahead =>
    case Behind =>
  }

  /** A snapshot with the given identity and upstream data and every file
      counter at zero, as `GitStatus::init` starts its counting. */
  function Fresh(branch: string, tag: string, remote: string, ahead: nat, behind: nat): (s: GitStatus)
    ensures s.branch == branch && s.tag == tag && s.remote == remote
    ensures forall k :: IsFileCounter(k) ==> s.Count(k) == 0
    ensures s.Count(Ahead) == ahead && s.Count(Behind) == behind
    ensures s.FileTotal() == 0
  {
    GitStatus(branch, tag, remote, 0, 0, 0, 0, 0, 0, 0, 0, 0, 0, 0, 0, ahead, behind)
  }
}
