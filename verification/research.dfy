/**
  A colony's in-progress research list and the two things the research
  command does to it: find an entry by id, scanning from the end, and force
  an entry's progress to its maximum.

  The global research tree is not modelled; the base time of a branch at a
  depth is a function parameter `baseTime`.
 */
module Research {

  datatype Option<T> = None | Some(value: T)

  /** One in-progress research of a colony (ILocalResearch): its id as text, branch, depth and progress. */
  datatype LocalResearch = LocalResearch(id: string, branch: string, depth: int, progress: int)

  /** Progress units still to go before the research is at its maximum. */
  function Remaining(r: LocalResearch, baseTime: (string, int) -> int): int
  {
    baseTime(r.branch, r.depth) - r.progress
  }

  /** `i` is the last index of `inProgress` whose id is exactly `id`. */
  ghost predicate IsLastMatch(inProgress: seq<LocalResearch>, id: string, i: int)
  {
    && 0 <= i < |inProgress|
    && inProgress[i].id == id
    && forall j :: i < j < |inProgress| ==> inProgress[j].id != id
  }

  /**
    Reference lookup: the last index whose id equals `id` exactly (no
    trimming or case folding), or None when no entry has that id.
   */
  function LastIndexOf(inProgress: seq<LocalResearch>, id: string): (r: Option<nat>)
    ensures r.None? <==> forall j :: 0 <= j < |inProgress| ==> inProgress[j].id != id
    ensures r.Some? ==> IsLastMatch(inProgress, id, r.value)
  {
    if |inProgress| == 0 then None
    else if inProgress[|inProgress| - 1].id == id then Some(|inProgress| - 1)
    else LastIndexOf(inProgress[..|inProgress| - 1], id)
  }

  /** There is at most one last match, so any index with that property is the one LastIndexOf finds. */
  lemma LastMatchIsUnique(inProgress: seq<LocalResearch>, id: string, i: int)
    requires IsLastMatch(inProgress, id, i)
    ensures LastIndexOf(inProgress, id) == Some(i)
  {
    var r := LastIndexOf(inProgress, id);
    assert r.Some?;
    assert !(r.value < i) && !(i < r.value);
  }

  /**
    The command's search loop: walks the list from the last index down and
    stops at the first entry whose id matches.
   */
  method ScanForId(inProgress: seq<LocalResearch>, id: string) returns (found: bool, index: int)
    ensures found <==> exists j :: 0 <= j < |inProgress| && inProgress[j].id == id
    ensures found ==> IsLastMatch(inProgress, id, index)
    ensures found ==> LastIndexOf(inProgress, id) == Some(index)
  {
    found := false;
    index := -1;
    var i := |inProgress| - 1;
    while i >= 0 && !found
      invariant -1 <= i < |inProgress|
      invariant !found ==> forall j :: i < j < |inProgress| ==> inProgress[j].id != id
      invariant found ==> IsLastMatch(inProgress, id, index)
      decreases i + 1
    {
      if inProgress[i].id == id {
        found := true;
        index := i;
      }
      i := i - 1;
    }
    if found {
      LastMatchIsUnique(inProgress, id, index);
    }
  }

  /**
    Sets the progress of entry `i` to the base time of its branch and depth,
    so nothing remains to do; the entry stays in the list and every other
    entry, and every other field of entry `i`, is unchanged.
   */
  function ForceComplete(inProgress: seq<LocalResearch>, i: int, baseTime: (string, int) -> int): (r: seq<LocalResearch>)
    requires 0 <= i < |inProgress|
    ensures |r| == |inProgress|
    ensures Remaining(r[i], baseTime) == 0
    ensures r[i].id == inProgress[i].id && r[i].branch == inProgress[i].branch && r[i].depth == inProgress[i].depth
    ensures forall j :: 0 <= j < |r| && j != i ==> r[j] == inProgress[j]
  {
    inProgress[i := inProgress[i].(progress := baseTime(inProgress[i].branch, inProgress[i].depth))]
  }

  /** Forcing an entry that is already at its maximum changes nothing. */
  lemma ForceCompleteOfCompleted(inProgress: seq<LocalResearch>, i: int, baseTime: (string, int) -> int)
    requires 0 <= i < |inProgress| && Remaining(inProgress[i], baseTime) == 0
    ensures ForceComplete(inProgress, i, baseTime) == inProgress
  {
    var r := ForceComplete(inProgress, i, baseTime);
    assert forall j :: 0 <= j < |r| ==> r[j] == inProgress[j];
  }
}
