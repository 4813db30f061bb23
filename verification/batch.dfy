/**
 * The batch over a source tree: validate the source, create the destination,
 * then for every directory the walk yields (at any depth) discover, sort and
 * select its images and assemble `<destination>/<directory name>.pdf`,
 * counting the groups whose assembly returned True.
 *
 * The walk is an abstract sequence of groups; whether the source is a
 * directory and whether creating the destination raises are parameters.
 */
module Batch {
  import opened Sequences
  import opened Discovery
  import opened NatSort
  import opened Selection
  import opened Assembly

  /** One directory yielded by the walk: its parent, its name and its entry names. */
  datatype Group = Group(root: Path, name: string, entries: seq<string>)

  function GroupDir(g: Group): Path {
    Join(g.root, g.name)
  }

  /** The output path depends on the directory name only, not on its parent. */
  function PdfPath(dest: Path, g: Group): Path {
    Join(dest, g.name + ".pdf")
  }

  /** What happened to one group. */
  datatype GroupResult = Skipped | Assembled(selection: seq<Path>, pdfPath: Path, report: Report)

  predicate HasImages(g: Group) {
    exists k :: 0 <= k < |g.entries| && IsImageName(g.entries[k])
  }

  /** The group's candidates after the natural sort. */
  function SortedImages(g: Group, le: (Path, Path) -> bool): seq<Path> {
    Sort(le, Candidates(GroupDir(g), g.entries))
  }

  /**
   * The sorted candidates are exactly the group's image entries, none lost
   * and none repeated, and they are in order for any total preorder.
   */
  lemma SortedImagesAreTheImages(g: Group, le: (Path, Path) -> bool)
    ensures multiset(SortedImages(g, le)) == multiset(ImagePaths(GroupDir(g), g.entries))
    ensures TotalPreorder(le) ==> SortedBy(le, SortedImages(g, le))
    ensures Distinct(g.entries) ==> Distinct(SortedImages(g, le))
  {
    CandidatesArePermutation(GroupDir(g), g.entries);
    if TotalPreorder(le) {
      SortSorted(le, Candidates(GroupDir(g), g.entries));
    }
    if Distinct(g.entries) {
      ImagePathsDistinct(GroupDir(g), g.entries);
      DistinctPermutation(ImagePaths(GroupDir(g), g.entries), SortedImages(g, le));
    }
  }

  lemma SelectionOfDistinctListing(g: Group, le: (Path, Path) -> bool, n: nat)
    requires Distinct(g.entries)
    ensures Distinct(Select(SortedImages(g, le), n))
  {
    SortedImagesAreTheImages(g, le);
    SelectionDistinct(SortedImages(g, le), n);
  }

  lemma SelectionOfSortedImages(g: Group, le: (Path, Path) -> bool, n: nat)
    requires TotalPreorder(le)
    ensures SortedBy(le, Select(SortedImages(g, le), n))
  {
    SortedImagesAreTheImages(g, le);
    SelectKeepsOrder(le, SortedImages(g, le), n);
  }

  /**
   * One iteration of the walk's inner loop. A group without image entries is
   * skipped and nothing is assembled for it; otherwise the head/tail
   * selection of its naturally sorted candidates is assembled into the
   * group's output path.
   */
  function ProcessGroup(g: Group, dest: Path, n: int, le: (Path, Path) -> bool, env: Env): (r: GroupResult)
    ensures r.Skipped? <==> !HasImages(g)
    ensures r.Assembled? ==> r.pdfPath == PdfPath(dest, g) && r.selection == Select(SortedImages(g, le), n)
  {
    var images := SortedImages(g, le);
    NoCandidatesIff(GroupDir(g), g.entries);
    if |images| == 0 then Skipped
    else
      var selection := Select(images, n);
      var pdf := PdfPath(dest, g);
      Assembled(selection, pdf, CreatePdfFromImages(selection, pdf, env))
  }

  /**
   * What an assembled group's selection holds. With a non-negative count it
   * is non-empty, drawn from the group's images without adding any, free of
   * repeats for a listing without repeated names, and in sorted order for a
   * total preorder; it is all of the images when there are fewer than the
   * count or the count is 0 or 1.
   */
  lemma ProcessGroupSelection(g: Group, dest: Path, n: int, le: (Path, Path) -> bool, env: Env)
    ensures var r := ProcessGroup(g, dest, n, le, env);
      && (r.Assembled? && 0 <= n ==> |r.selection| > 0)
      && (r.Assembled? && 0 <= n ==> multiset(r.selection) <= multiset(ImagePaths(GroupDir(g), g.entries)))
      && (r.Assembled? && (|ImagePaths(GroupDir(g), g.entries)| < n || 0 <= n <= 1) ==>
          multiset(r.selection) == multiset(ImagePaths(GroupDir(g), g.entries)))
      && (r.Assembled? && 0 <= n && Distinct(g.entries) ==> Distinct(r.selection))
      && (r.Assembled? && 0 <= n && TotalPreorder(le) ==> SortedBy(le, r.selection))
  {
    var r := ProcessGroup(g, dest, n, le, env);
    if r.Assembled? {
      SelectionFacts(g, le, n);
    }
  }

  lemma SelectionFacts(g: Group, le: (Path, Path) -> bool, n: int)
    requires HasImages(g)
    ensures 0 <= n ==> |Select(SortedImages(g, le), n)| > 0
    ensures 0 <= n ==> multiset(Select(SortedImages(g, le), n)) <= multiset(ImagePaths(GroupDir(g), g.entries))
    ensures |ImagePaths(GroupDir(g), g.entries)| < n || 0 <= n <= 1 ==>
      multiset(Select(SortedImages(g, le), n)) == multiset(ImagePaths(GroupDir(g), g.entries))
    ensures 0 <= n && Distinct(g.entries) ==> Distinct(Select(SortedImages(g, le), n))
    ensures 0 <= n && TotalPreorder(le) ==> SortedBy(le, Select(SortedImages(g, le), n))
  {
    var images := SortedImages(g, le);
    var paths := ImagePaths(GroupDir(g), g.entries);
    SortedImagesAreTheImages(g, le);
    var k :| 0 <= k < |g.entries| && IsImageName(g.entries[k]);
    assert Join(GroupDir(g), g.entries[k]) in Candidates(GroupDir(g), g.entries);
    assert |images| > 0;
    assert |images| == |paths| by {
      assert |multiset(images)| == |multiset(paths)|;
    }
    if 0 <= n && Distinct(g.entries) {
      SelectionOfDistinctListing(g, le, n);
    }
    if 0 <= n && TotalPreorder(le) {
      SelectionOfSortedImages(g, le, n);
    }
  }


  /** An assembled group's report is the assembly of its selection into its output path. */
  lemma ProcessGroupAssembles(g: Group, dest: Path, n: int, le: (Path, Path) -> bool, env: Env)
    ensures var r := ProcessGroup(g, dest, n, le, env);
      r.Assembled? ==> r.report == CreatePdfFromImages(r.selection, r.pdfPath, env)
  {
  }

  predicate Succeeded(r: GroupResult) {
    r.Assembled? && r.report.outcome == Returned(true)
  }

  /** The groups' results, in walk order. */
  function Results(walk: seq<Group>, dest: Path, n: int, le: (Path, Path) -> bool, env: Env): (rs: seq<GroupResult>)
    ensures |rs| == |walk|
    ensures forall k | 0 <= k < |walk| :: rs[k] == ProcessGroup(walk[k], dest, n, le, env)
  {
    if walk == [] then []
    else
      var prefix := walk[..|walk| - 1];
      assert forall k | 0 <= k < |prefix| :: prefix[k] == walk[k];
      Results(prefix, dest, n, le, env) + [ProcessGroup(walk[|walk| - 1], dest, n, le, env)]
  }

  /** Processing one more group appends its result and leaves the earlier ones alone. */
  lemma ResultsSnoc(walk: seq<Group>, g: Group, dest: Path, n: int, le: (Path, Path) -> bool, env: Env)
    ensures Results(walk + [g], dest, n, le, env) == Results(walk, dest, n, le, env) + [ProcessGroup(g, dest, n, le, env)]
  {
    assert (walk + [g])[..|walk|] == walk;
  }

  /** Output paths of the groups for which assembly was called, in order. */
  function AssembledPaths(rs: seq<GroupResult>): seq<Path> {
    if rs == [] then []
    else AssembledPaths(rs[..|rs| - 1]) + (if rs[|rs| - 1].Assembled? then [rs[|rs| - 1].pdfPath] else [])
  }

  /** Output paths of the groups whose assembly returned True, in order. */
  function SucceededPaths(rs: seq<GroupResult>): seq<Path> {
    if rs == [] then []
    else SucceededPaths(rs[..|rs| - 1]) + (if Succeeded(rs[|rs| - 1]) then [rs[|rs| - 1].pdfPath] else [])
  }

  /** How many groups of the walk have at least one image entry. */
  function GroupsWithImages(walk: seq<Group>): nat {
    if walk == [] then 0
    else GroupsWithImages(walk[..|walk| - 1]) + (if HasImages(walk[|walk| - 1]) then 1 else 0)
  }

  /** Assembly is called once for every group with images and for no other group. */
  lemma {:induction false} AssembledExactlyGroupsWithImages(walk: seq<Group>, dest: Path, n: int,
                                                           le: (Path, Path) -> bool, env: Env)
    ensures |AssembledPaths(Results(walk, dest, n, le, env))| == GroupsWithImages(walk)
    decreases |walk|
  {
    if walk != [] {
      var w := walk[..|walk| - 1];
      var r := ProcessGroup(walk[|walk| - 1], dest, n, le, env);
      AssembledExactlyGroupsWithImages(w, dest, n, le, env);
      PathsSnoc(Results(w, dest, n, le, env), r);
    }
  }

  /** Groups are independent: the successes of a walk are those of its parts. */
  lemma {:induction false} SucceededPathsAppend(a: seq<GroupResult>, b: seq<GroupResult>)
    ensures SucceededPaths(a + b) == SucceededPaths(a) + SucceededPaths(b)
    decreases |b|
  {
    if b != [] {
      var b' := b[..|b| - 1];
      assert (a + b)[..|a + b| - 1] == a + b';
      assert (a + b)[|a + b| - 1] == b[|b| - 1];
      var last := if Succeeded(b[|b| - 1]) then [b[|b| - 1].pdfPath] else [];
      assert SucceededPaths(a + b) == SucceededPaths(a + b') + last;
      assert SucceededPaths(b) == SucceededPaths(b') + last;
      SucceededPathsAppend(a, b');
    } else {
      assert a + b == a;
    }
  }

  /** Every success is a group that was assembled, so the count never exceeds them. */
  lemma {:induction false} SuccessesBounded(rs: seq<GroupResult>)
    ensures |SucceededPaths(rs)| <= |AssembledPaths(rs)|
    ensures forall p | p in SucceededPaths(rs) :: p in AssembledPaths(rs)
    decreases |rs|
  {
    if rs != [] {
      SuccessesBounded(rs[..|rs| - 1]);
    }
  }

  /** A skipped group changes neither the assembled list nor the success count. */
  lemma SkippedGroupChangesNothing(rs: seq<GroupResult>)
    ensures AssembledPaths(rs + [Skipped]) == AssembledPaths(rs)
    ensures SucceededPaths(rs + [Skipped]) == SucceededPaths(rs)
  {
    assert (rs + [Skipped])[..|rs|] == rs;
  }

  /** The bookkeeping of one more group, as the loop performs it. */
  lemma PathsSnoc(rs: seq<GroupResult>, r: GroupResult)
    ensures AssembledPaths(rs + [r]) == AssembledPaths(rs) + (if r.Assembled? then [r.pdfPath] else [])
    ensures SucceededPaths(rs + [r]) == SucceededPaths(rs) + (if Succeeded(r) then [r.pdfPath] else [])
  {
    assert (rs + [r])[..|rs|] == rs;
  }

  /**
   * Two groups with the same directory name, found under different parents,
   * target the same output path; when both assemblies return True both are
   * counted, although only one file results.
   */
  lemma SameNameGroupsShareOutput(g1: Group, g2: Group, dest: Path, n: int, le: (Path, Path) -> bool, env: Env)
    requires g1.name == g2.name
    ensures var ps := SucceededPaths(Results([g1, g2], dest, n, le, env));
      && (forall p | p in ps :: p == PdfPath(dest, g1))
      && (Succeeded(ProcessGroup(g1, dest, n, le, env)) && Succeeded(ProcessGroup(g2, dest, n, le, env)) ==> |ps| == 2)
  {
    var r1 := ProcessGroup(g1, dest, n, le, env);
    var r2 := ProcessGroup(g2, dest, n, le, env);
    var rs := Results([g1, g2], dest, n, le, env);
    assert rs[0] == r1 && rs[1] == r2;
    assert rs == [r1, r2];
    TwoResultsOnePath(r1, r2, PdfPath(dest, g1));
  }

  lemma TwoResultsOnePath(r1: GroupResult, r2: GroupResult, p: Path)
    requires r1.Assembled? ==> r1.pdfPath == p
    requires r2.Assembled? ==> r2.pdfPath == p
    ensures forall q | q in SucceededPaths([r1, r2]) :: q == p
    ensures Succeeded(r1) && Succeeded(r2) ==> |SucceededPaths([r1, r2])| == 2
  {
    PathsSnoc([], r1);
    PathsSnoc([r1], r2);
    assert [r1] + [r2] == [r1, r2];
  }

  /**
   * The counting loop over the groups' results: the assembled output paths,
   * the successful ones, and the success count.
   */
  method Tally(results: seq<GroupResult>) returns (successCount: nat, attempted: seq<Path>, produced: seq<Path>)
    ensures attempted == AssembledPaths(results)
    ensures produced == SucceededPaths(results)
    ensures successCount == |produced| <= |attempted|
  {
    attempted, produced, successCount := [], [], 0;
    var i := 0;
    while i < |results|
      invariant 0 <= i <= |results|
      invariant attempted == AssembledPaths(results[..i])
      invariant produced == SucceededPaths(results[..i])
      invariant successCount == |produced|
    {
      var r := results[i];
      assert results[..i + 1] == results[..i] + [r];
      PathsSnoc(results[..i], r);
      if r.Assembled? {
        attempted := attempted + [r.pdfPath];
        if r.report.outcome == Returned(true) {
          successCount := successCount + 1;
          produced := produced + [r.pdfPath];
        }
      }
      i := i + 1;
    }
    assert results[..i] == results;
    SuccessesBounded(results);
  }

  /**
   * The batch. An invalid source returns False before any group; a failing
   * destination creation raises before any group. Otherwise every group of
   * the walk is processed in order, a failing group does not stop the
   * others, and the result is True exactly when some assembly returned True.
   */
  method ProcessDirectory(sourceIsDir: bool, makedirsOk: bool, walk: seq<Group>, dest: Path, n: int,
                          le: (Path, Path) -> bool, env: Env)
    returns (outcome: Outcome, successCount: nat, attempted: seq<Path>, produced: seq<Path>)
    ensures !sourceIsDir ==> outcome == Returned(false) && successCount == 0 && attempted == []
    ensures sourceIsDir && !makedirsOk ==> outcome == Raised && successCount == 0 && attempted == []
    ensures sourceIsDir && makedirsOk ==>
      var rs := Results(walk, dest, n, le, env);
      && attempted == AssembledPaths(rs)
      && produced == SucceededPaths(rs)
      && successCount == |produced| <= |attempted| == GroupsWithImages(walk)
      && outcome == Returned(successCount > 0)
  {
    attempted, produced, successCount := [], [], 0;
    if !sourceIsDir {
      return Returned(false), successCount, attempted, produced;
    }
    if !makedirsOk {
      return Raised, successCount, attempted, produced;
    }
    var results := Results(walk, dest, n, le, env);
    successCount, attempted, produced := Tally(results);
    AssembledExactlyGroupsWithImages(walk, dest, n, le, env);
    outcome := Returned(successCount > 0);
  }
}
