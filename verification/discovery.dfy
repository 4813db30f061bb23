/**
 * Candidate discovery for one group: the three glob patterns `*.jpg`,
 * `*.jpeg` and `*.png` applied to the entries of the group's directory, in
 * that order. Matching is literal and case-sensitive, and the leading `*`
 * never matches a name that starts with a dot.
 */
module Discovery {
  import opened Sequences

  type Path = string

  /** The literal suffixes of the three patterns, in the order they are globbed. */
  const JpgSuffix: string := ".jpg"
  const JpegSuffix: string := ".jpeg"
  const PngSuffix: string := ".png"

  predicate EndsWith(s: string, suffix: string) {
    |suffix| <= |s| && s[|s| - |suffix|..] == suffix
  }

  /** A hidden entry: glob's leading `*` does not match it. */
  predicate IsHidden(name: string) {
    |name| > 0 && name[0] == '.'
  }

  /** Whether the pattern `*<suffix>` matches the entry `name`. */
  predicate MatchesStar(name: string, suffix: string) {
    !IsHidden(name) && EndsWith(name, suffix)
  }

  /** The reference definition of an image file name, independent of the glob order. */
  predicate IsImageName(name: string) {
    && !IsHidden(name)
    && (EndsWith(name, JpgSuffix) || EndsWith(name, JpegSuffix) || EndsWith(name, PngSuffix))
  }

  /** `os.path.join` of a directory and one entry name (entry names hold no separator). */
  function Join(dir: Path, name: string): Path
  {
    if dir == [] || dir[|dir| - 1] == '/' then dir + name else dir + "/" + name
  }

  /** The joined path starts with the directory and ends with the entry name. */
  lemma JoinShape(dir: Path, name: string)
    ensures EndsWith(Join(dir, name), name)
    ensures |Join(dir, name)| >= |dir| && Join(dir, name)[..|dir|] == dir
  {
  }

  /** Under one directory, different entries give different paths. */
  lemma JoinInjective(dir: Path, a: string, b: string)
    ensures Join(dir, a) == Join(dir, b) <==> a == b
  {
    var sep := if dir == [] || dir[|dir| - 1] == '/' then dir else dir + "/";
    assert Join(dir, a) == sep + a && Join(dir, b) == sep + b;
    assert a == (sep + a)[|sep|..];
    assert b == (sep + b)[|sep|..];
  }

  /** One glob call: the matching entries joined to the directory, in listing order. */
  function Glob(dir: Path, entries: seq<string>, suffix: string): (r: seq<Path>)
    ensures |r| <= |entries|
    ensures forall p | p in r :: exists j | 0 <= j < |entries| :: MatchesStar(entries[j], suffix) && p == Join(dir, entries[j])
    ensures forall j | 0 <= j < |entries| && MatchesStar(entries[j], suffix) :: Join(dir, entries[j]) in r
    decreases |entries|
  {
    if entries == [] then []
    else
      var e := entries[|entries| - 1];
      var prefix := entries[..|entries| - 1];
      assert forall j | 0 <= j < |prefix| :: prefix[j] == entries[j];
      Glob(dir, prefix, suffix) + (if MatchesStar(e, suffix) then [Join(dir, e)] else [])
  }

  /** The concatenation of the three globs, before sorting. */
  function Candidates(dir: Path, entries: seq<string>): (r: seq<Path>)
    ensures forall p | p in r :: exists j | 0 <= j < |entries| :: IsImageName(entries[j]) && p == Join(dir, entries[j])
    ensures forall j | 0 <= j < |entries| && IsImageName(entries[j]) :: Join(dir, entries[j]) in r
  {
    Glob(dir, entries, JpgSuffix) + Glob(dir, entries, JpegSuffix) + Glob(dir, entries, PngSuffix)
  }

  /** Reference: every image entry of the listing, joined to the directory, in listing order. */
  function ImagePaths(dir: Path, entries: seq<string>): (r: seq<Path>)
    ensures |r| <= |entries|
    decreases |entries|
  {
    if entries == [] then []
    else
      var e := entries[|entries| - 1];
      ImagePaths(dir, entries[..|entries| - 1]) + (if IsImageName(e) then [Join(dir, e)] else [])
  }

  /** A path is in the reference list exactly when it names an image entry. */
  lemma {:induction false} ImagePathsMembership(dir: Path, entries: seq<string>, p: Path)
    ensures p in ImagePaths(dir, entries) <==>
      exists k :: 0 <= k < |entries| && IsImageName(entries[k]) && p == Join(dir, entries[k])
    decreases |entries|
  {
    if entries != [] {
      var n := |entries| - 1;
      var prefix := entries[..n];
      var last := if IsImageName(entries[n]) then [Join(dir, entries[n])] else [];
      ImagePathsMembership(dir, prefix, p);
      assert ImagePaths(dir, entries) == ImagePaths(dir, prefix) + last;
      if p in ImagePaths(dir, prefix) {
        var k :| 0 <= k < n && IsImageName(prefix[k]) && p == Join(dir, prefix[k]);
        assert entries[k] == prefix[k];
      } else if p in last {
        assert IsImageName(entries[n]) && p == Join(dir, entries[n]);
      }
    }
  }


  /** A duplicate-free listing gives a duplicate-free image list. */
  lemma {:induction false} ImagePathsDistinct(dir: Path, entries: seq<string>)
    requires Distinct(entries)
    ensures Distinct(ImagePaths(dir, entries))
    decreases |entries|
  {
    if entries != [] {
      var n := |entries| - 1;
      var prefix := entries[..n];
      assert Distinct(prefix) by {
        forall i, j | 0 <= i < j < |prefix|
          ensures prefix[i] != prefix[j]
        {
          assert prefix[i] == entries[i] && prefix[j] == entries[j];
        }
      }
      ImagePathsDistinct(dir, prefix);
      if IsImageName(entries[n]) {
        var p := Join(dir, entries[n]);
        forall k | 0 <= k < |prefix|
          ensures p != Join(dir, prefix[k])
        {
          assert prefix[k] == entries[k] != entries[n];
          JoinInjective(dir, prefix[k], entries[n]);
        }
        ImagePathsMembership(dir, prefix, p);
        DistinctSnoc(ImagePaths(dir, prefix), p);
      }
    }
  }


  lemma EndsWithChar(s: string, suffix: string, k: nat)
    requires EndsWith(s, suffix)
    requires k < |suffix|
    ensures s[|s| - |suffix| + k] == suffix[k]
  {
    assert s[|s| - |suffix|..][k] == suffix[k];
  }

  /** No name ends with two of the three suffixes, so no image is globbed twice. */
  lemma SuffixesExclusive(name: string)
    ensures !(EndsWith(name, JpgSuffix) && EndsWith(name, JpegSuffix))
    ensures !(EndsWith(name, JpgSuffix) && EndsWith(name, PngSuffix))
    ensures !(EndsWith(name, JpegSuffix) && EndsWith(name, PngSuffix))
  {
    if EndsWith(name, JpgSuffix) && EndsWith(name, JpegSuffix) {
      EndsWithChar(name, JpgSuffix, 2);
      assert false;
    }
    if EndsWith(name, JpgSuffix) && EndsWith(name, PngSuffix) {
      assert false;
    }
    if EndsWith(name, JpegSuffix) && EndsWith(name, PngSuffix) {
      EndsWithChar(name, JpegSuffix, 3);
      assert false;
    }
  }

  /** What the last entry adds to one filtered list. */
  function Contribution(dir: Path, e: string, matches: bool): multiset<Path> {
    if matches then multiset{Join(dir, e)} else multiset{}
  }

  /** The last entry is added by at most one glob, and by one exactly when it is an image name. */
  lemma ContributionsAdd(dir: Path, e: string)
    ensures Contribution(dir, e, MatchesStar(e, JpgSuffix)) + Contribution(dir, e, MatchesStar(e, JpegSuffix))
            + Contribution(dir, e, MatchesStar(e, PngSuffix)) == Contribution(dir, e, IsImageName(e))
  {
    SuffixesExclusive(e);
  }

  /**
   * The three globs together find each image entry exactly once: the
   * candidates are a permutation of the reference image list.
   */
  lemma {:induction false} CandidatesArePermutation(dir: Path, entries: seq<string>)
    ensures multiset(Candidates(dir, entries)) == multiset(ImagePaths(dir, entries))
    decreases |entries|
  {
    if entries != [] {
      var e := entries[|entries| - 1];
      var prefix := entries[..|entries| - 1];
      CandidatesArePermutation(dir, prefix);
      ContributionsAdd(dir, e);
      var a := Contribution(dir, e, MatchesStar(e, JpgSuffix));
      var b := Contribution(dir, e, MatchesStar(e, JpegSuffix));
      var c := Contribution(dir, e, MatchesStar(e, PngSuffix));
      var ma := multiset(Glob(dir, prefix, JpgSuffix));
      var mb := multiset(Glob(dir, prefix, JpegSuffix));
      var mc := multiset(Glob(dir, prefix, PngSuffix));
      assert multiset(Glob(dir, entries, JpgSuffix)) == ma + a;
      assert multiset(Glob(dir, entries, JpegSuffix)) == mb + b;
      assert multiset(Glob(dir, entries, PngSuffix)) == mc + c;
      assert multiset(ImagePaths(dir, entries)) == multiset(ImagePaths(dir, prefix)) + Contribution(dir, e, IsImageName(e));
      calc {
        multiset(Candidates(dir, entries));
        (ma + a) + (mb + b) + (mc + c);
        (ma + mb + mc) + (a + b + c);
        { assert ma + mb + mc == multiset(Candidates(dir, prefix)); }
        multiset(ImagePaths(dir, prefix)) + Contribution(dir, e, IsImageName(e));
      }
    }
  }

  /** A path is a candidate exactly when it names an image entry of the listing. */
  lemma CandidateMembership(dir: Path, entries: seq<string>, p: Path)
    ensures p in Candidates(dir, entries) <==>
      exists k :: 0 <= k < |entries| && IsImageName(entries[k]) && p == Join(dir, entries[k])
  {
    CandidatesArePermutation(dir, entries);
    ImagePathsMembership(dir, entries, p);
    assert p in Candidates(dir, entries) <==> p in multiset(Candidates(dir, entries));
    assert p in ImagePaths(dir, entries) <==> p in multiset(ImagePaths(dir, entries));
  }

  /** A group has no candidates exactly when none of its entries is an image name. */
  lemma NoCandidatesIff(dir: Path, entries: seq<string>)
    ensures |Candidates(dir, entries)| == 0 <==> forall k | 0 <= k < |entries| :: !IsImageName(entries[k])
  {
    if |Candidates(dir, entries)| == 0 {
      forall k | 0 <= k < |entries|
        ensures !IsImageName(entries[k])
      {
        CandidateMembership(dir, entries, Join(dir, entries[k]));
      }
    } else {
      CandidateMembership(dir, entries, Candidates(dir, entries)[0]);
    }
  }

  /** Matching is case-sensitive and literal, and hidden names are not matched. */
  lemma MatchingExamples()
    ensures IsImageName("a.jpg") && IsImageName("b.jpeg") && IsImageName("c.png")
    ensures !IsImageName("a.JPG") && !IsImageName(".jpg") && !IsImageName("d.gif")
  {
    assert "a.jpg"[1..] == JpgSuffix;
    assert "b.jpeg"[1..] == JpegSuffix;
    assert "c.png"[1..] == PngSuffix;
    assert "a.JPG"[1..] != JpgSuffix;
  }
}
