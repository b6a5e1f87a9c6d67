/** The rewriting half of update-image-urls.js: `updateHtmlFile` applies every
    mapping entry, in mapping order, to a file's text (lines 37-61), and
    `main` runs it over every file the walk finds and adds up the counts
    (lines 76-85). Reading and writing files are parameters and results: the
    contents a file is read with come from `read`, and what would be written
    back is returned. */
module Rewriter {
  import opened Strings
  import opened FileTree
  import opened RegexEscape
  import opened LiteralReplace
  import opened HtmlWalker
  import opened UrlMapping

  /** `key` occurs somewhere in `s`. */
  ghost predicate Contains(s: string, key: string)
  {
    exists q :: OccursAt(s, key, q)
  }

  /** One pass of the loop body (lines 45-50): the escaped key as a global
      pattern; `match` finds its positions and only when there are some is
      the text replaced and the count raised. With a non-empty key and a URL
      without `$` this is literal replace-all. */
  function KeyStep(content: string, oldPath: string, newUrl: string): (r: Replaced)
    requires |oldPath| > 0 && '$' !in newUrl
    ensures r == ReplaceAll(content, oldPath, newUrl)
    ensures r.count == 0 <==> !Contains(content, oldPath)
    ensures r.count == 0 ==> r.text == content
    ensures |r.text| == |content| + r.count * (|newUrl| - |oldPath|)
  {
    EscapeTokenizesToLiterals(oldPath);
    var regex := Tokenize(Escape(oldPath)).value;
    EscapedMatchesAreScan(oldPath, content, 0);
    EscapedReplaceIsReplaceAll(oldPath, content, newUrl, 0);
    ReplaceFromIsSplice(content, oldPath, newUrl, 0);
    ReplaceAllCountZeroIffAbsent(content, oldPath, newUrl);
    var matches := GlobalMatches(regex, content, 0);
    if |matches| > 0 then Replaced(GlobalReplace(regex, content, newUrl, 0), |matches|)
    else Replaced(content, 0)
  }

  /** The keys applied one after another, each to the text the previous one
      left, with the counts added up. Nothing is counted exactly when no key
      is found at its turn, and then the text is untouched. */
  function ApplyMapping(content: string, m: Mapping): (r: Replaced)
    requires ValidMapping(m)
    ensures r.count == 0 ==> r.text == content
    decreases |m|
  {
    if |m| == 0 then Replaced(content, 0)
    else
      var step := KeyStep(content, m[0].0, m[0].1);
      var rest := ApplyMapping(step.text, m[1..]);
      Replaced(rest.text, step.count + rest.count)
  }

  /** Applying `m1 + m2` is applying `m1`, then `m2` to its output; the
      counts add up. */
  lemma {:induction false} ApplyMappingAppend(content: string, m1: Mapping, m2: Mapping)
    requires ValidMapping(m1) && ValidMapping(m2)
    ensures ValidMapping(m1 + m2)
    ensures var first := ApplyMapping(content, m1);
            var second := ApplyMapping(first.text, m2);
            ApplyMapping(content, m1 + m2) == Replaced(second.text, first.count + second.count)
    decreases |m1|
  {
    var m := m1 + m2;
    assert ValidMapping(m) by {
      forall i | 0 <= i < |m|
        ensures |m[i].0| > 0 && '$' !in m[i].1
      {
        if i >= |m1| {
          assert m[i] == m2[i - |m1|];
        }
      }
    }
    if |m1| > 0 {
      assert m[1..] == m1[1..] + m2;
      var step := KeyStep(content, m1[0].0, m1[0].1);
      ApplyMappingAppend(step.text, m1[1..], m2);
    } else {
      assert m == m2;
    }
  }

  /** A file none of whose keys occurs is left exactly as it is, with a zero
      count; and a zero count means no key occurred in the original text. */
  lemma {:induction false} ApplyMappingZeroIffNoKeyOccurs(content: string, m: Mapping)
    requires ValidMapping(m)
    ensures ApplyMapping(content, m).count == 0 <==> forall i :: 0 <= i < |m| ==> !Contains(content, m[i].0)
    ensures ApplyMapping(content, m).count == 0 ==> ApplyMapping(content, m).text == content
    decreases |m|
  {
    if |m| > 0 {
      var step := KeyStep(content, m[0].0, m[0].1);
      ApplyMappingZeroIffNoKeyOccurs(step.text, m[1..]);
      if step.count == 0 {
        forall i | 0 <= i < |m| - 1
          ensures m[1..][i] == m[i + 1]
        {
        }
      }
    }
  }

  /** `updateHtmlFile` on a file read as `content`: the keys in mapping order,
      then a write-back exactly when something was counted. `write` is what
      `writeFileSync` receives, `None` when the file is left alone; leaving it
      alone loses nothing, since the rewritten text would be the same. */
  method UpdateHtmlFile(content: string, mapping: Mapping) returns (write: Option<string>, changes: nat)
    requires ValidMapping(mapping)
    ensures changes == ApplyMapping(content, mapping).count
    ensures write == WriteBack(content, mapping)
    ensures write.Some? <==> changes > 0
    ensures write.None? ==> ApplyMapping(content, mapping).text == content
    ensures changes == 0 <==> forall i :: 0 <= i < |mapping| ==> !Contains(content, mapping[i].0)
  {
    var text := content;
    changes := 0;
    var i := 0;
    while i < |mapping|
      invariant 0 <= i <= |mapping|
      invariant ValidMapping(mapping[..i])
      invariant ApplyMapping(content, mapping[..i]) == Replaced(text, changes)
    {
      var step := KeyStep(text, mapping[i].0, mapping[i].1);
      assert mapping[..i + 1] == mapping[..i] + [mapping[i]];
      ApplyMappingAppend(content, mapping[..i], [mapping[i]]);
      assert [mapping[i]][1..] == [];
      text := step.text;
      changes := changes + step.count;
      i := i + 1;
    }
    assert mapping[..i] == mapping;
    ApplyMappingZeroIffNoKeyOccurs(content, mapping);
    if changes > 0 {
      write := Some(text);
    } else {
      write := None;
    }
  }

  /** Per-file replacement counts of the files in `files`. */
  function FileCounts(files: seq<Path>, read: Path -> string, mapping: Mapping): (cs: seq<nat>)
    requires ValidMapping(mapping)
    ensures |cs| == |files|
    ensures forall i :: 0 <= i < |files| ==> cs[i] == ApplyMapping(read(files[i]), mapping).count
    decreases |files|
  {
    if |files| == 0 then []
    else
      var n := |files| - 1;
      assert forall i :: 0 <= i < n ==> files[..n][i] == files[i];
      FileCounts(files[..n], read, mapping) + [ApplyMapping(read(files[n]), mapping).count]
  }

  /** What a file read as `content` is written back with (lines 53-58): the
      rewritten text when something was counted, nothing otherwise. */
  function WriteBack(content: string, mapping: Mapping): (w: Option<string>)
    requires ValidMapping(mapping)
  {
    var r := ApplyMapping(content, mapping);
    if r.count > 0 then Some(r.text) else None
  }

  /** A file is left alone exactly when no key occurs in it, and leaving it
      alone loses nothing; otherwise it gets the keys' rewrite. */
  lemma WriteBackIffSomeKeyOccurs(content: string, mapping: Mapping)
    requires ValidMapping(mapping)
    ensures WriteBack(content, mapping).None? <==> forall i :: 0 <= i < |mapping| ==> !Contains(content, mapping[i].0)
    ensures WriteBack(content, mapping).None? ==> ApplyMapping(content, mapping).text == content
    ensures WriteBack(content, mapping).Some? ==> WriteBack(content, mapping).value == ApplyMapping(content, mapping).text
  {
    ApplyMappingZeroIffNoKeyOccurs(content, mapping);
  }

  /** The loop of `main` (lines 81-85): every file in order, its count added
      to the total. `writes[i]` is what `files[i]` is written back with, if
      anything. */
  method UpdateAll(files: seq<Path>, read: Path -> string, mapping: Mapping)
    returns (writes: seq<Option<string>>, total: nat)
    requires ValidMapping(mapping)
    ensures |writes| == |files|
    ensures forall i :: 0 <= i < |files| ==> writes[i] == WriteBack(read(files[i]), mapping)
    ensures total == Sum(FileCounts(files, read, mapping))
  {
    writes := [];
    total := 0;
    var i := 0;
    while i < |files|
      invariant 0 <= i <= |files|
      invariant |writes| == i
      invariant forall j :: 0 <= j < i ==> writes[j] == WriteBack(read(files[j]), mapping)
      invariant total == Sum(FileCounts(files[..i], read, mapping))
    {
      var write, changes := UpdateHtmlFile(read(files[i]), mapping);
      CountsStep(files, i, read, mapping);
      var prev := writes;
      writes := writes + [write];
      forall j | 0 <= j < i + 1
        ensures writes[j] == WriteBack(read(files[j]), mapping)
      {
        if j < i {
          assert writes[j] == prev[j];
        }
      }
      total := total + changes;
      i := i + 1;
    }
    assert files[..i] == files;
  }

  /** The total over one more file. */
  lemma CountsStep(files: seq<Path>, i: nat, read: Path -> string, mapping: Mapping)
    requires ValidMapping(mapping) && i < |files|
    ensures Sum(FileCounts(files[..i + 1], read, mapping))
         == Sum(FileCounts(files[..i], read, mapping)) + ApplyMapping(read(files[i]), mapping).count
  {
    var c := ApplyMapping(read(files[i]), mapping).count;
    assert files[..i + 1][..i] == files[..i];
    assert FileCounts(files[..i + 1], read, mapping) == FileCounts(files[..i], read, mapping) + [c];
    SumAppend(FileCounts(files[..i], read, mapping), [c]);
    assert [c][1..] == [];
  }

  /** The outcome of the rewriting run over a tree. */
  datatype Report = Report(files: seq<Path>, writes: seq<Option<string>>, total: nat)

  /** `main` after the mapping is loaded (lines 76-85): walk the tree from
      `.`, rewrite every file found, and total the counts. */
  method RewriteTree(root: seq<Entry>, read: Path -> string, mapping: Mapping) returns (report: Report)
    requires ValidMapping(mapping)
    ensures report.files == HtmlFiles(root, [])
    ensures |report.writes| == |report.files|
    ensures forall i :: 0 <= i < |report.files| ==>
              report.writes[i] == WriteBack(read(report.files[i]), mapping)
    ensures report.total == Sum(FileCounts(report.files, read, mapping))
  {
    var files := HtmlFilesInto(root, [], []);
    HtmlFilesIntoAppends(root, [], []);
    assert files == HtmlFiles(root, []);
    var writes, total := UpdateAll(files, read, mapping);
    report := Report(files, writes, total);
  }
}
