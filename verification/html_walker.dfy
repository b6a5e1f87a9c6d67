/** `getAllHtmlFiles` (update-image-urls.js:15-35): a depth-first walk that
    skips hidden entries and `node_modules`, descends into directories and
    collects every other entry whose extension is exactly `.html`, in listing
    order. Paths are built as `path.join(directory, file)`; the walk starts at
    `.`, whose paths are relative to it, so the root is the empty path. */
module HtmlWalker {
  import opened Strings
  import opened FileTree

  /** Entries the walk ignores: hidden names and the dependency cache. */
  predicate Skipped(name: string)
  {
    StartsWithChar(name, '.') || name == "node_modules"
  }

  /** The extension test is case-sensitive: `page.HTML` is not collected. */
  predicate IsHtml(name: string)
  {
    Extname(name) == ".html"
  }

  /** A path relative to the starting directory that the walk should report:
      no component is skipped and the last one names an HTML file. */
  predicate Eligible(rel: Path)
  {
    |rel| > 0 && NoneSkipped(rel) && IsHtml(rel[|rel| - 1])
  }

  /** No component of `rel` is skipped, checked from the first on. */
  predicate NoneSkipped(rel: Path)
    decreases |rel|
  {
    |rel| == 0 || (!Skipped(rel[0]) && NoneSkipped(rel[1..]))
  }

  /** The component check holds exactly when every component passes. */
  lemma {:induction false} NoneSkippedIsEvery(rel: Path)
    ensures NoneSkipped(rel) <==> forall i :: 0 <= i < |rel| ==> !Skipped(rel[i])
    decreases |rel|
  {
    if |rel| > 0 {
      NoneSkippedIsEvery(rel[1..]);
      assert forall i :: 1 <= i < |rel| ==> rel[i] == rel[1..][i - 1];
    }
  }

  /** `p` lies strictly below `dir` and is eligible relative to it. */
  predicate EligibleBelow(p: Path, dir: Path)
  {
    |p| > |dir| && p[..|dir|] == dir && Eligible(p[|dir|..])
  }

  /** The walk over one listing found in directory `dir`. */
  function HtmlFiles(listing: seq<Entry>, dir: Path): (r: seq<Path>)
    ensures forall i :: 0 <= i < |r| ==> EligibleBelow(r[i], dir)
    decreases listing
  {
    if |listing| == 0 then []
    else EntryHtmlFiles(listing[0], dir) + HtmlFiles(listing[1..], dir)
  }

  /** The walk's contribution for one entry of directory `dir`. Anything that
      is not a directory (a FIFO named `x.html` too) takes the extension
      test. */
  function EntryHtmlFiles(e: Entry, dir: Path): (r: seq<Path>)
    ensures forall i :: 0 <= i < |r| ==> EligibleBelow(r[i], dir)
    decreases e
  {
    if Skipped(e.name) then []
    else
      match e
      case Dir(n, children) =>
        var below := HtmlFiles(children, dir + [n]);
        EligibleLift(below, dir, n);
        below
      case _ =>
        if IsHtml(e.name) then
          var p := dir + [e.name];
          assert p[..|dir|] == dir && p[|dir|..] == [e.name] && [e.name][1..] == [];
          assert NoneSkipped([e.name][1..]);
          [p]
        else []
  }

  /** Reference listing: every non-directory entry of the tree, skipped or
      not, in depth-first listing order. */
  function AllFiles(listing: seq<Entry>, dir: Path): (r: seq<Path>)
    ensures forall i :: 0 <= i < |r| ==> |r[i]| > |dir| && r[i][..|dir|] == dir
    decreases listing
  {
    if |listing| == 0 then []
    else EntryFiles(listing[0], dir) + AllFiles(listing[1..], dir)
  }

  function EntryFiles(e: Entry, dir: Path): (r: seq<Path>)
    ensures forall i :: 0 <= i < |r| ==> |r[i]| > |dir| && r[i][..|dir|] == dir
    decreases e
  {
    match e
    case Dir(n, children) =>
      var below := AllFiles(children, dir + [n]);
      assert forall i :: 0 <= i < |below| ==> below[i][..|dir|] == (dir + [n])[..|dir|];
      below
    case _ => [dir + [e.name]]
  }

  /** The paths of `ps` that are eligible below `dir`, in order. */
  function KeepEligible(ps: seq<Path>, dir: Path): seq<Path>
  {
    if |ps| == 0 then []
    else (if EligibleBelow(ps[0], dir) then [ps[0]] else []) + KeepEligible(ps[1..], dir)
  }

  lemma {:induction false} KeepEligibleAppend(a: seq<Path>, b: seq<Path>, dir: Path)
    ensures KeepEligible(a + b, dir) == KeepEligible(a, dir) + KeepEligible(b, dir)
  {
    if |a| == 0 {
      assert a + b == b;
    } else {
      var x, rest := a[0], a[1..];
      assert a == [x] + rest && a + b == [x] + (rest + b);
      KeepEligibleAppend(rest, b, dir);
      KeepEligibleCons(x, rest, dir);
      KeepEligibleCons(x, rest + b, dir);
      var keptRest, keptB := KeepEligible(rest, dir), KeepEligible(b, dir);
      if EligibleBelow(x, dir) {
        assert [x] + (keptRest + keptB) == ([x] + keptRest) + keptB;
      } else {
        assert [] + (keptRest + keptB) == ([] + keptRest) + keptB;
      }
    }
  }

  /** Filtering a path in front of others. */
  lemma KeepEligibleCons(x: Path, rest: seq<Path>, dir: Path)
    ensures KeepEligible([x] + rest, dir) == (if EligibleBelow(x, dir) then [x] else []) + KeepEligible(rest, dir)
  {
    assert ([x] + rest)[1..] == rest;
  }

  /** Below a directory named `n` that is not skipped, eligibility relative
      to its parent and relative to the directory itself agree. */
  lemma EligibleThrough(p: Path, dir: Path, n: string)
    requires |p| > |dir| + 1 && p[..|dir| + 1] == dir + [n]
    requires !Skipped(n)
    ensures EligibleBelow(p, dir) <==> EligibleBelow(p, dir + [n])
  {
    var rel := p[|dir|..];
    var rest := p[|dir| + 1..];
    assert rel == [n] + rest;
    assert p[..|dir|] == (dir + [n])[..|dir|];
    assert p[..|dir|] == dir;
    assert rel[1..] == rest && rel[|rel| - 1] == rest[|rest| - 1];
  }

  lemma EligibleLift(ps: seq<Path>, dir: Path, n: string)
    requires forall i :: 0 <= i < |ps| ==> EligibleBelow(ps[i], dir + [n])
    requires !Skipped(n)
    ensures forall i :: 0 <= i < |ps| ==> EligibleBelow(ps[i], dir)
  {
    forall i | 0 <= i < |ps|
      ensures EligibleBelow(ps[i], dir)
    {
      EligibleThrough(ps[i], dir, n);
    }
  }

  lemma {:induction false} KeepThrough(ps: seq<Path>, dir: Path, n: string)
    requires forall i :: 0 <= i < |ps| ==> |ps[i]| > |dir| + 1 && ps[i][..|dir| + 1] == dir + [n]
    requires !Skipped(n)
    ensures KeepEligible(ps, dir) == KeepEligible(ps, dir + [n])
  {
    if |ps| > 0 {
      EligibleThrough(ps[0], dir, n);
      KeepThrough(ps[1..], dir, n);
    }
  }

  /** Below a skipped directory named `n` nothing is eligible. */
  lemma {:induction false} KeepNoneBelowSkipped(ps: seq<Path>, dir: Path, n: string)
    requires forall i :: 0 <= i < |ps| ==> |ps[i]| > |dir| + 1 && ps[i][..|dir| + 1] == dir + [n]
    requires Skipped(n)
    ensures KeepEligible(ps, dir) == []
  {
    if |ps| > 0 {
      var p := ps[0];
      assert p[|dir|..][0] == p[..|dir| + 1][|dir|] == n;
      KeepNoneBelowSkipped(ps[1..], dir, n);
    }
  }

  /** The walk reports exactly the eligible files of the whole tree, in the
      order a depth-first listing visits them: a file is reported iff no
      component of its path is hidden or `node_modules` and its extension is
      `.html`. */
  lemma {:induction false} HtmlFilesIsEligibleFilter(listing: seq<Entry>, dir: Path)
    ensures HtmlFiles(listing, dir) == KeepEligible(AllFiles(listing, dir), dir)
    decreases listing
  {
    if |listing| > 0 {
      EntryHtmlFilesIsEligibleFilter(listing[0], dir);
      HtmlFilesIsEligibleFilter(listing[1..], dir);
      KeepEligibleAppend(EntryFiles(listing[0], dir), AllFiles(listing[1..], dir), dir);
    }
  }

  lemma {:induction false} EntryHtmlFilesIsEligibleFilter(e: Entry, dir: Path)
    ensures EntryHtmlFiles(e, dir) == KeepEligible(EntryFiles(e, dir), dir)
    decreases e
  {
    match e
    case Dir(n, children) =>
      var below := AllFiles(children, dir + [n]);
      forall i | 0 <= i < |below|
        ensures |below[i]| > |dir| + 1 && below[i][..|dir| + 1] == dir + [n]
      {
      }
      if Skipped(n) {
        KeepNoneBelowSkipped(below, dir, n);
      } else {
        HtmlFilesIsEligibleFilter(children, dir + [n]);
        KeepThrough(below, dir, n);
      }
    case _ =>
      var p := dir + [e.name];
      assert p[..|dir|] == dir && p[|dir|..] == [e.name];
      assert KeepEligible([p], dir) == (if EligibleBelow(p, dir) then [p] else []) + KeepEligible([], dir);
  }

  /** `getAllHtmlFiles(directory, fileList)` as written: one array threaded
      through the recursive calls (line 28) and pushed onto (line 30). The
      result is what `fileList` holds afterwards. */
  function HtmlFilesInto(listing: seq<Entry>, dir: Path, fileList: seq<Path>): seq<Path>
    decreases listing
  {
    if |listing| == 0 then fileList
    else HtmlFilesInto(listing[1..], dir, EntryInto(listing[0], dir, fileList))
  }

  /** One turn of the loop over the listing (lines 19-31). */
  function EntryInto(e: Entry, dir: Path, fileList: seq<Path>): seq<Path>
    decreases e
  {
    if Skipped(e.name) then fileList
    else
      match e
      case Dir(n, children) => HtmlFilesInto(children, dir + [n], fileList)
      case _ => if IsHtml(e.name) then fileList + [dir + [e.name]] else fileList
  }

  /** Threading the array appends to it exactly what the walk returns, so
      `getAllHtmlFiles('.')` with a fresh array is `HtmlFiles(root, [])`. */
  lemma {:induction false} HtmlFilesIntoAppends(listing: seq<Entry>, dir: Path, fileList: seq<Path>)
    ensures HtmlFilesInto(listing, dir, fileList) == fileList + HtmlFiles(listing, dir)
    decreases listing
  {
    if |listing| > 0 {
      var here := EntryHtmlFiles(listing[0], dir);
      var rest := HtmlFiles(listing[1..], dir);
      assert HtmlFiles(listing, dir) == here + rest;
      EntryIntoAppends(listing[0], dir, fileList);
      HtmlFilesIntoAppends(listing[1..], dir, fileList + here);
      AppendAssoc(fileList, here, rest);
    }
  }

  lemma {:induction false} EntryIntoAppends(e: Entry, dir: Path, fileList: seq<Path>)
    ensures EntryInto(e, dir, fileList) == fileList + EntryHtmlFiles(e, dir)
    decreases e
  {
    if Skipped(e.name) {
      assert fileList + [] == fileList;
    } else if e.Dir? {
      HtmlFilesIntoAppends(e.children, dir + [e.name], fileList);
    } else if !IsHtml(e.name) {
      assert fileList + [] == fileList;
    }
  }

  lemma AppendAssoc(a: seq<Path>, b: seq<Path>, c: seq<Path>)
    ensures (a + b) + c == a + (b + c)
  {
  }
}
