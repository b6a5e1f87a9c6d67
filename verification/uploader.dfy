/** The uploading half of upload-images-to-blob.js: every selected image is
    offered to the blob store in listing order, the successful uploads are
    kept in order (lines 99-107), and each kept upload gives the URL mapping
    three keys, one per way an HTML page may spell the image's old path
    (lines 110-115). The store itself is the oracle `put`: for a request it
    gives the URL the image ends up at, or `None` when reading the file or
    storing it fails (the error `uploadImage` catches). */
module Uploader {
  import opened Strings
  import opened FileTree
  import opened Images
  import opened UrlMapping

  /** `./images`, the one directory the upload looks at. */
  const ImagesDir: Path := ["images"]

  /** What `uploadImage` hands to `put`: the bytes of the file at `source`,
      stored under the bare file name, publicly readable, with the content
      type its extension gives and without a random suffix. */
  datatype UploadRequest = UploadRequest(
    source: Path, pathname: string, contentType: string, access: string, addRandomSuffix: bool)

  function RequestFor(img: Image): (r: UploadRequest)
    ensures r.contentType == DefaultContentType <==> !IsImageName(img.fileName)
  {
    ContentTypeIsTotal(LowerExt(img.fileName));
    UploadRequest(img.filePath, img.fileName, ContentType(LowerExt(img.fileName)), "public", false)
  }

  /** What the attempts to upload `images` come back with, in order: the
      URL each image's request is stored at, or `None` on failure. */
  function Outcomes(images: seq<Image>, put: UploadRequest -> Option<string>): (o: seq<Option<string>>)
    ensures |o| == |images| && forall j :: 0 <= j < |images| ==> o[j] == put(RequestFor(images[j]))
  {
    if |images| == 0 then [] else [put(RequestFor(images[0]))] + Outcomes(images[1..], put)
  }

  /** `{ fileName, url }` of one successful upload. */
  datatype UploadResult = UploadResult(fileName: string, url: string)

  /** `images[j]` was uploaded and gave `r`: `outcomes[j]` is what the
      attempt to upload `images[j]` came back with. */
  predicate UploadedAs(images: seq<Image>, outcomes: seq<Option<string>>, j: nat, r: UploadResult)
  {
    j < |images| && j < |outcomes| && outcomes[j] == Some(r.url) && r.fileName == images[j].fileName
  }

  /** The successful uploads among the attempts, in order. */
  function Kept(images: seq<Image>, outcomes: seq<Option<string>>): seq<UploadResult>
    requires |outcomes| == |images|
    decreases |images|
  {
    if |images| == 0 then []
    else
      var n := |images| - 1;
      Kept(images[..n], outcomes[..n])
        + (if outcomes[n].Some? then [UploadResult(images[n].fileName, outcomes[n].value)] else [])
  }

  /** The upload loop of `main` (lines 99-107): every image is offered once,
      in order, and the successful uploads are collected in order. */
  method UploadAll(images: seq<Image>, outcomes: seq<Option<string>>) returns (results: seq<UploadResult>)
    requires |outcomes| == |images|
    ensures results == Kept(images, outcomes)
  {
    results := [];
    var i := 0;
    while i < |images|
      invariant 0 <= i <= |images|
      invariant results == Kept(images[..i], outcomes[..i])
    {
      assert images[..i + 1][..i] == images[..i] && outcomes[..i + 1][..i] == outcomes[..i];
      var outcome := outcomes[i];
      if outcome.Some? {
        results := results + [UploadResult(images[i].fileName, outcome.value)];
      }
      i := i + 1;
    }
    assert images[..i] == images && outcomes[..i] == outcomes;
  }

  /** Failures are dropped, never retried: there are never more results
      than images, none exactly when every upload failed, and one per image
      when none did. */
  lemma {:induction false} KeptCount(images: seq<Image>, outcomes: seq<Option<string>>)
    requires |outcomes| == |images|
    ensures |Kept(images, outcomes)| <= |images|
    ensures |Kept(images, outcomes)| == 0 <==> forall j :: 0 <= j < |images| ==> outcomes[j].None?
    ensures (forall j :: 0 <= j < |images| ==> outcomes[j].Some?) ==> |Kept(images, outcomes)| == |images|
    decreases |images|
  {
    if |images| > 0 {
      var n := |images| - 1;
      KeptCount(images[..n], outcomes[..n]);
      assert forall j :: 0 <= j < n ==> outcomes[..n][j] == outcomes[j];
    }
  }

  /** The kept uploads are the order-preserving subsequence of the
      successful ones: `idx` gives, in increasing order, the positions they
      come from, and every success is among them. */
  lemma {:induction false} KeptIsSuccessSubsequence(images: seq<Image>, outcomes: seq<Option<string>>)
    returns (idx: seq<nat>)
    requires |outcomes| == |images|
    ensures SuccessPositions(images, outcomes, Kept(images, outcomes), idx)
    decreases |images|
  {
    if |images| == 0 {
      idx := [];
    } else {
      var n := |images| - 1;
      var pre := KeptIsSuccessSubsequence(images[..n], outcomes[..n]);
      var keptPre := Kept(images[..n], outcomes[..n]);
      PrefixPositions(images, outcomes, keptPre, pre);
      if outcomes[n].Some? {
        SuccessStep(images, outcomes, keptPre, pre);
        idx := pre + [n];
      } else {
        idx := pre;
      }
    }
  }

  /** `idx` lists, in increasing order, the positions of the successful
      attempts, and `kept` holds what those attempts gave. */
  predicate SuccessPositions(images: seq<Image>, outcomes: seq<Option<string>>, kept: seq<UploadResult>, idx: seq<nat>)
  {
    && |kept| == |idx|
    && Increasing(idx)
    && (forall t :: 0 <= t < |idx| ==> UploadedAs(images, outcomes, idx[t], kept[t]))
    && (forall j :: 0 <= j < |images| && j < |outcomes| && outcomes[j].Some? ==> j in idx)
  }

  /** What holds of all but the last attempt holds of all of them, except
      that the last one may be missing from the positions. */
  lemma PrefixPositions(images: seq<Image>, outcomes: seq<Option<string>>, kept: seq<UploadResult>, pre: seq<nat>)
    requires |outcomes| == |images| > 0
    requires SuccessPositions(images[..|images| - 1], outcomes[..|images| - 1], kept, pre)
    ensures var n := |images| - 1;
            && (forall t :: 0 <= t < |pre| ==> pre[t] < n && UploadedAs(images, outcomes, pre[t], kept[t]))
            && (forall j :: 0 <= j < n && outcomes[j].Some? ==> j in pre)
            && (outcomes[n].None? ==> SuccessPositions(images, outcomes, kept, pre))
  {
    var n := |images| - 1;
    forall t | 0 <= t < |pre|
      ensures pre[t] < n && UploadedAs(images, outcomes, pre[t], kept[t])
    {
      var j := pre[t];
      assert UploadedAs(images[..n], outcomes[..n], j, kept[t]);
      assert images[..n][j] == images[j] && outcomes[..n][j] == outcomes[j];
    }
    forall j | 0 <= j < n && outcomes[j].Some?
      ensures j in pre
    {
      assert outcomes[..n][j] == outcomes[j];
    }
  }

  /** A successful last attempt adds its position and its result. */
  lemma SuccessStep(images: seq<Image>, outcomes: seq<Option<string>>, kept: seq<UploadResult>, pre: seq<nat>)
    requires |outcomes| == |images| > 0 && outcomes[|images| - 1].Some?
    requires |kept| == |pre| && Increasing(pre)
    requires var n := |images| - 1;
             && (forall t :: 0 <= t < |pre| ==> pre[t] < n && UploadedAs(images, outcomes, pre[t], kept[t]))
             && (forall j :: 0 <= j < n && outcomes[j].Some? ==> j in pre)
    ensures var n := |images| - 1;
            SuccessPositions(images, outcomes, kept + [UploadResult(images[n].fileName, outcomes[n].value)], pre + [n])
  {
    var n := |images| - 1;
    var all := kept + [UploadResult(images[n].fileName, outcomes[n].value)];
    var idx := pre + [n];
    forall t | 0 <= t < |idx|
      ensures UploadedAs(images, outcomes, idx[t], all[t])
    {
      if t < |pre| {
        assert idx[t] == pre[t] && all[t] == kept[t];
      }
    }
    forall a, b | 0 <= a < b < |idx|
      ensures idx[a] < idx[b]
    {
      assert idx[a] == pre[a];
    }
    forall j | 0 <= j < |images| && outcomes[j].Some?
      ensures j in idx
    {
      if j < n {
        assert j in pre;
      }
    }
  }

  /** Kept uploads of distinctly named images have distinct names. */
  lemma ResultNamesDistinct(images: seq<Image>, outcomes: seq<Option<string>>)
    requires |outcomes| == |images|
    requires forall a, b :: 0 <= a < b < |images| ==> images[a].fileName != images[b].fileName
    ensures DistinctResultNames(Kept(images, outcomes))
  {
    var results := Kept(images, outcomes);
    var idx := KeptIsSuccessSubsequence(images, outcomes);
    forall a, b | 0 <= a < b < |results|
      ensures results[a].fileName != results[b].fileName
    {
      assert UploadedAs(images, outcomes, idx[a], results[a]) && UploadedAs(images, outcomes, idx[b], results[b]);
    }
  }

  /** The ways a page may refer to an image of the `images` directory, in
      the order `main` inserts them. */
  datatype Form = Parent | Rooted | Relative

  function Spelling(f: Form, name: string): (k: string)
    ensures |k| > |name| && k[|k| - |name|..] == name
  {
    match f
    case Parent => "../images/" + name
    case Rooted => "/images/" + name
    case Relative => "images/" + name
  }

  /** Different forms, or different names, give different keys. */
  lemma SpellingInjective(f: Form, name: string, g: Form, other: string)
    ensures Spelling(f, name) == Spelling(g, other) <==> f == g && name == other
  {
    var k, k' := Spelling(f, name), Spelling(g, other);
    if k == k' {
      assert k[0] == k'[0];
      if f == Parent && g == Parent {
        assert name == k[10..] == other;
      } else if f == Rooted && g == Rooted {
        assert name == k[8..] == other;
      } else if f == Relative && g == Relative {
        assert name == k[7..] == other;
      }
    }
  }

  /** `k` is one of the three keys of the image named `name`. */
  predicate IsSpellingOf(k: string, name: string)
  {
    k == Spelling(Parent, name) || k == Spelling(Rooted, name) || k == Spelling(Relative, name)
  }

  /** The body of the `forEach` (lines 112-114): the three keys of one
      upload, each assigned its URL. */
  function AddResult(m: Mapping, r: UploadResult): Mapping
  {
    Assign(Assign(Assign(m, Spelling(Parent, r.fileName), r.url), Spelling(Rooted, r.fileName), r.url),
           Spelling(Relative, r.fileName), r.url)
  }

  /** After the three assignments the upload's keys find its URL, and every
      other key finds what it found before. */
  lemma AddResultLookup(m: Mapping, r: UploadResult)
    ensures forall k :: Lookup(AddResult(m, r), k) == if IsSpellingOf(k, r.fileName) then Some(r.url) else Lookup(m, k)
  {
    AssignThreeLookup(m, Spelling(Parent, r.fileName), Spelling(Rooted, r.fileName), Spelling(Relative, r.fileName), r.url);
  }

  /** Every entry after the three assignments is one of the upload's keys
      bound to its URL, or the entry that was at the same position before. */
  lemma AddResultOrigin(m: Mapping, r: UploadResult)
    ensures |AddResult(m, r)| >= |m|
    ensures forall i :: 0 <= i < |AddResult(m, r)| ==>
              SpelledBy(AddResult(m, r)[i], r) || (i < |m| && AddResult(m, r)[i] == m[i])
  {
    AssignThreeOrigin(m, Spelling(Parent, r.fileName), Spelling(Rooted, r.fileName), Spelling(Relative, r.fileName), r.url);
  }

  lemma AssignThreeLookup(m: Mapping, p: string, q: string, l: string, v: string)
    ensures forall k :: Lookup(Assign(Assign(Assign(m, p, v), q, v), l, v), k)
                     == if k == p || k == q || k == l then Some(v) else Lookup(m, k)
  {
  }

  /** Every entry after three assignments is one of the three, or the entry
      that was at the same position before. */
  lemma AssignThreeOrigin(m: Mapping, p: string, q: string, l: string, v: string)
    ensures |Assign(Assign(Assign(m, p, v), q, v), l, v)| >= |m|
    ensures var m' := Assign(Assign(Assign(m, p, v), q, v), l, v);
            forall i :: 0 <= i < |m'| ==>
              (m'[i] == (p, v) || m'[i] == (q, v) || m'[i] == (l, v)) || (i < |m| && m'[i] == m[i])
  {
    var m1 := Assign(m, p, v);
    var m2 := Assign(m1, q, v);
    var m3 := Assign(m2, l, v);
    AssignPositions(m, p, v);
    AssignPositions(m1, q, v);
    AssignPositions(m2, l, v);
    forall i | 0 <= i < |m3|
      ensures (m3[i] == (p, v) || m3[i] == (q, v) || m3[i] == (l, v)) || (i < |m| && m3[i] == m[i])
    {
      if m3[i] != (l, v) {
        assert i < |m2| && m3[i] == m2[i];
        if m2[i] != (q, v) {
          assert i < |m1| && m2[i] == m1[i];
        }
      }
    }
  }

  /** `urlMapping` after the `forEach` over `results` (lines 110-115). */
  function BuildMapping(results: seq<UploadResult>): Mapping
    decreases |results|
  {
    if |results| == 0 then []
    else AddResult(BuildMapping(results[..|results| - 1]), results[|results| - 1])
  }

  /** No key is bound twice, whatever the names. */
  lemma {:induction false} BuildMappingDistinct(results: seq<UploadResult>)
    ensures DistinctKeys(BuildMapping(results))
    decreases |results|
  {
    if |results| > 0 {
      var m0 := BuildMapping(results[..|results| - 1]);
      var r := results[|results| - 1];
      BuildMappingDistinct(results[..|results| - 1]);
      AssignKeepsDistinct(m0, Spelling(Parent, r.fileName), r.url);
      var m1 := Assign(m0, Spelling(Parent, r.fileName), r.url);
      AssignKeepsDistinct(m1, Spelling(Rooted, r.fileName), r.url);
      AssignKeepsDistinct(Assign(m1, Spelling(Rooted, r.fileName), r.url), Spelling(Relative, r.fileName), r.url);
    }
  }

  /** Every entry of `m` is a key of one of `results` bound to that upload's
      URL. */
  ghost predicate EntriesFrom(m: Mapping, results: seq<UploadResult>)
  {
    forall i :: 0 <= i < |m| ==> exists t :: 0 <= t < |results| && SpelledBy(m[i], results[t])
  }

  /** Every entry of the mapping is a key of some upload bound to that
      upload's URL. */
  lemma {:induction false} BuildMappingEntries(results: seq<UploadResult>)
    ensures EntriesFrom(BuildMapping(results), results)
    decreases |results|
  {
    if |results| > 0 {
      var n := |results| - 1;
      var prefix := results[..n];
      BuildMappingEntries(prefix);
      EntriesFromStep(BuildMapping(prefix), results);
    } else {
      assert BuildMapping(results) == [];
    }
  }

  /** The last upload's entries added to entries from the others come from
      all of them. */
  lemma EntriesFromStep(m0: Mapping, all: seq<UploadResult>)
    requires |all| > 0 && EntriesFrom(m0, all[..|all| - 1])
    ensures EntriesFrom(AddResult(m0, all[|all| - 1]), all)
  {
    var prefix := all[..|all| - 1];
    var r := all[|all| - 1];
    var m := AddResult(m0, r);
    AddResultOrigin(m0, r);
    forall i | 0 <= i < |m|
      ensures exists t :: 0 <= t < |all| && SpelledBy(m[i], all[t])
    {
      if SpelledBy(m[i], r) {
        assert all[|prefix|] == r;
      } else {
        assert i < |m0| && m[i] == m0[i];
        var t :| 0 <= t < |prefix| && SpelledBy(m0[i], prefix[t]);
        assert all[t] == prefix[t];
      }
    }
  }

  /** The built mapping is one the rewriter accepts: every key is a
      non-empty spelling, and the values are the store's URLs, which must
      be free of `$`. */
  lemma {:induction false} UploadedMappingIsValid(results: seq<UploadResult>)
    requires forall t :: 0 <= t < |results| ==> '$' !in results[t].url
    ensures ValidMapping(BuildMapping(results))
    decreases |results|
  {
    if |results| > 0 {
      var n := |results| - 1;
      var prefix := results[..n];
      var r := results[n];
      var m0 := BuildMapping(prefix);
      assert BuildMapping(results) == AddResult(m0, r);
      UrlsOfPrefix(results, n);
      UploadedMappingIsValid(prefix);
      AddResultKeepsValid(m0, r);
    }
  }

  lemma UrlsOfPrefix(results: seq<UploadResult>, n: nat)
    requires n <= |results|
    requires forall t :: 0 <= t < |results| ==> '$' !in results[t].url
    ensures forall t :: 0 <= t < n ==> '$' !in results[..n][t].url
  {
  }

  /** One upload's three keys are non-empty and bound to its URL. */
  lemma AddResultKeepsValid(m0: Mapping, r: UploadResult)
    requires ValidMapping(m0) && '$' !in r.url
    ensures ValidMapping(AddResult(m0, r))
  {
    var m := AddResult(m0, r);
    AddResultOrigin(m0, r);
    forall i | 0 <= i < |m|
      ensures |m[i].0| > 0 && '$' !in m[i].1
    {
      if !SpelledBy(m[i], r) {
        assert m[i] == m0[i];
      }
    }
  }

  /** The entry is one of the keys of upload `r`, bound to its URL. */
  predicate SpelledBy(entry: (string, string), r: UploadResult)
  {
    IsSpellingOf(entry.0, r.fileName) && entry.1 == r.url
  }

  /** The position of the last upload that `k` is a key of, if any. */
  function LastSpelled(results: seq<UploadResult>, k: string): (p: Option<nat>)
    ensures p.Some? ==> p.value < |results| && IsSpellingOf(k, results[p.value].fileName)
                        && forall u :: p.value < u < |results| ==> !IsSpellingOf(k, results[u].fileName)
    ensures p.None? <==> forall t :: 0 <= t < |results| ==> !IsSpellingOf(k, results[t].fileName)
    decreases |results|
  {
    if |results| == 0 then None
    else if IsSpellingOf(k, results[|results| - 1].fileName) then Some(|results| - 1)
    else
      var prefix := results[..|results| - 1];
      assert forall t :: 0 <= t < |prefix| ==> prefix[t] == results[t];
      LastSpelled(prefix, k)
  }

  /** Looking a key up in the mapping finds the URL of the last upload that
      the key spells, and nothing when it spells none of them: a later
      upload's assignment overwrites an earlier one's. */
  lemma {:induction false} BuildMappingLookup(results: seq<UploadResult>, k: string)
    ensures Lookup(BuildMapping(results), k)
         == match LastSpelled(results, k) case None => None case Some(t) => Some(results[t].url)
    decreases |results|
  {
    if |results| == 0 {
      assert BuildMapping(results) == [];
    } else {
      var n := |results| - 1;
      var prefix := results[..n];
      BuildMappingLookup(prefix, k);
      AddResultLookup(BuildMapping(prefix), results[n]);
      if !IsSpellingOf(k, results[n].fileName) {
        var p := LastSpelled(prefix, k);
        if p.Some? {
          assert prefix[p.value] == results[p.value];
        }
      }
    }
  }

  /** Image names whose keys never collide. */
  predicate DistinctResultNames(results: seq<UploadResult>)
  {
    forall a, b :: 0 <= a < b < |results| ==> results[a].fileName != results[b].fileName
  }

  /** A key spells the image named `name` only as one of its own three keys. */
  lemma SpellsOnlyItsName(k: string, name: string, other: string)
    requires IsSpellingOf(k, name) && IsSpellingOf(k, other)
    ensures name == other
  {
    var f :| f in {Parent, Rooted, Relative} && k == Spelling(f, name);
    var g :| g in {Parent, Rooted, Relative} && k == Spelling(g, other);
    SpellingInjective(f, name, g, other);
  }

  /** For every kept upload, all three of its keys map to its URL
      (given distinct names, which a single directory guarantees). */
  lemma EverySpellingMapsToItsUrl(results: seq<UploadResult>, t: nat, f: Form)
    requires DistinctResultNames(results) && t < |results|
    ensures Lookup(BuildMapping(results), Spelling(f, results[t].fileName)) == Some(results[t].url)
  {
    var k := Spelling(f, results[t].fileName);
    BuildMappingLookup(results, k);
    var p := LastSpelled(results, k);
    assert IsSpellingOf(k, results[t].fileName);
    SpellsOnlyItsName(k, results[t].fileName, results[p.value].fileName);
  }

  /** Given distinct names no assignment overwrites: the mapping holds the
      three keys of every upload, in upload order and, within one upload, in
      the order `../images/`, `/images/`, `images/`. So it has exactly three
      keys per upload, and a longer spelling always comes before the shorter
      spellings that are its suffixes. */
  lemma {:induction false} MappingLayout(results: seq<UploadResult>)
    requires DistinctResultNames(results)
    ensures InTriples(BuildMapping(results), results)
    decreases |results|
  {
    if |results| == 0 {
      assert BuildMapping(results) == [];
    } else {
      var n := |results| - 1;
      var prefix := results[..n];
      var last := results[n];
      assert forall t :: 0 <= t < n ==> prefix[t] == results[t];
      MappingLayout(prefix);
      var m0 := BuildMapping(prefix);
      forall f: Form
        ensures !HasKey(m0, Spelling(f, last.fileName))
      {
        NewNameHasNoKey(prefix, last.fileName, f);
      }
      TriplesStep(m0, results);
    }
  }

  /** `m` holds three entries per upload, in upload order: the three keys of
      upload `t`, bound to its URL, at positions `3t`, `3t + 1` and `3t + 2`. */
  predicate InTriples(m: Mapping, results: seq<UploadResult>)
  {
    && |m| == 3 * |results|
    && forall t :: 0 <= t < |results| ==>
         && m[3 * t] == (Spelling(Parent, results[t].fileName), results[t].url)
         && m[3 * t + 1] == (Spelling(Rooted, results[t].fileName), results[t].url)
         && m[3 * t + 2] == (Spelling(Relative, results[t].fileName), results[t].url)
  }

  /** The last upload, none of whose keys is bound yet, appends its triple. */
  lemma TriplesStep(m0: Mapping, all: seq<UploadResult>)
    requires |all| > 0 && InTriples(m0, all[..|all| - 1])
    requires Unbound(m0, all[|all| - 1].fileName)
    ensures InTriples(AddResult(m0, all[|all| - 1]), all)
  {
    var n := |all| - 1;
    var prefix := all[..n];
    var last := all[n];
    AddResultAppends(m0, last);
    var m := m0 + Triple(last);
    forall t | 0 <= t < |all|
      ensures && m[3 * t] == (Spelling(Parent, all[t].fileName), all[t].url)
              && m[3 * t + 1] == (Spelling(Rooted, all[t].fileName), all[t].url)
              && m[3 * t + 2] == (Spelling(Relative, all[t].fileName), all[t].url)
    {
      ThreeAt(m0, Triple(last), n, t);
      if t < n {
        assert prefix[t] == all[t];
      }
    }
  }

  /** Entry `3t + j` of a mapping of three entries per upload, extended by
      the three entries of one more. */
  lemma ThreeAt(m0: Mapping, tr: Mapping, n: nat, t: nat)
    requires |m0| == 3 * n && |tr| == 3 && t <= n
    ensures t < n ==> (m0 + tr)[3 * t] == m0[3 * t] && (m0 + tr)[3 * t + 1] == m0[3 * t + 1]
                      && (m0 + tr)[3 * t + 2] == m0[3 * t + 2]
    ensures t == n ==> (m0 + tr)[3 * t] == tr[0] && (m0 + tr)[3 * t + 1] == tr[1] && (m0 + tr)[3 * t + 2] == tr[2]
  {
  }

  /** The three entries of one upload, in insertion order. */
  function Triple(r: UploadResult): Mapping
  {
    [(Spelling(Parent, r.fileName), r.url), (Spelling(Rooted, r.fileName), r.url), (Spelling(Relative, r.fileName), r.url)]
  }

  /** None of the keys of the image named `name` is bound in `m`. */
  predicate Unbound(m: Mapping, name: string)
  {
    forall f: Form :: !HasKey(m, Spelling(f, name))
  }

  /** A name no earlier upload has contributes no key yet. */
  lemma NewNameHasNoKey(prefix: seq<UploadResult>, name: string, f: Form)
    requires forall t :: 0 <= t < |prefix| ==> prefix[t].fileName != name
    ensures !HasKey(BuildMapping(prefix), Spelling(f, name))
  {
    BuildMappingLookup(prefix, Spelling(f, name));
  }

  /** When none of an upload's keys is bound yet, its three assignments
      append its three entries. */
  lemma AddResultAppends(m: Mapping, r: UploadResult)
    requires Unbound(m, r.fileName)
    ensures AddResult(m, r) == m + Triple(r)
  {
    var p, q, l := Spelling(Parent, r.fileName), Spelling(Rooted, r.fileName), Spelling(Relative, r.fileName);
    assert !HasKey(m, p) && !HasKey(m, q) && !HasKey(m, l);
    SpellingInjective(Parent, r.fileName, Rooted, r.fileName);
    SpellingInjective(Parent, r.fileName, Relative, r.fileName);
    SpellingInjective(Rooted, r.fileName, Relative, r.fileName);
    AssignThreeNew(m, p, q, l, r.url);
  }

  /** Three assignments of distinct new keys append them in order. */
  lemma AssignThreeNew(m: Mapping, p: string, q: string, l: string, v: string)
    requires !HasKey(m, p) && !HasKey(m, q) && !HasKey(m, l)
    requires p != q && p != l && q != l
    ensures Assign(Assign(Assign(m, p, v), q, v), l, v) == m + [(p, v), (q, v), (l, v)]
  {
    AssignPositions(m, p, v);
    var m1 := m + [(p, v)];
    AppendKeepsKeyOut(m, (p, v), q);
    AppendKeepsKeyOut(m, (p, v), l);
    AssignPositions(m1, q, v);
    var m2 := m1 + [(q, v)];
    AppendKeepsKeyOut(m1, (q, v), l);
    AssignPositions(m2, l, v);
    AppendThree(m, (p, v), (q, v), (l, v));
  }

  lemma AppendThree(m: Mapping, a: (string, string), b: (string, string), c: (string, string))
    ensures m + [a, b, c] == m + [a] + [b] + [c]
  {
    var lhs, rhs := m + [a, b, c], m + [a] + [b] + [c];
    forall i | 0 <= i < |lhs|
      ensures lhs[i] == rhs[i]
    {
    }
  }

  /** Appending an entry for another key leaves a key unbound. */
  lemma AppendKeepsKeyOut(m: Mapping, e: (string, string), k: string)
    requires !HasKey(m, k) && e.0 != k
    ensures !HasKey(m + [e], k)
  {
    var me := m + [e];
    forall i | 0 <= i < |me|
      ensures me[i].0 != k
    {
      if i < |m| {
        assert me[i] == m[i];
      }
    }
  }

  /** A spelling of `name` that spells `other` is a spelling of the same
      name. */
  lemma SpellingNamesMatch(f: Form, name: string, other: string)
    requires IsSpellingOf(Spelling(f, name), other)
    ensures name == other
  {
    SpellsOnlyItsName(Spelling(f, name), name, other);
  }

  /** Wherever `../images/N` occurs, `/images/N` occurs two characters
      further on and `images/N` three: the shorter keys are suffixes of the
      longer, which is why the insertion order matters to the rewriter. */
  lemma LongerSpellingContainsShorter(s: string, name: string, q: nat)
    requires OccursAt(s, Spelling(Parent, name), q)
    ensures OccursAt(s, Spelling(Rooted, name), q + 2)
    ensures OccursAt(s, Spelling(Relative, name), q + 3)
  {
    var p := Spelling(Parent, name);
    assert p[2..] == Spelling(Rooted, name);
    assert p[3..] == Spelling(Relative, name);
    assert s[q + 2..q + |p|] == s[q..q + |p|][2..];
    assert s[q + 3..q + |p|] == s[q..q + |p|][3..];
  }

  /** The outcome of `main`: no images, in which case it returns before
      uploading anything or writing a mapping (lines 93-96); or the images
      found, the uploads kept and the mapping written, which is written even
      when every upload failed. */
  datatype UploadRun =
    | NoImages
    | Uploaded(images: seq<Image>, results: seq<UploadResult>, mapping: Mapping)

  /** The requests a run makes: one per image found, in order. */
  function Requests(run: UploadRun): seq<UploadRequest>
  {
    match run
    case NoImages => []
    case Uploaded(images, _, _) => seq(|images|, j requires 0 <= j < |images| => RequestFor(images[j]))
  }

  /** `main` of upload-images-to-blob.js on the listing of `./images`. */
  method RunUpload(listing: seq<Entry>, put: UploadRequest -> Option<string>) returns (run: UploadRun)
    ensures run.NoImages? <==> |SelectImages(listing, ImagesDir)| == 0
    ensures |Requests(run)| == |SelectImages(listing, ImagesDir)|
    ensures run.Uploaded? ==>
              && run.images == SelectImages(listing, ImagesDir)
              && |run.results| <= |run.images|
              && run.results == Kept(run.images, Outcomes(run.images, put))
              && run.mapping == BuildMapping(run.results)
  {
    var images := SelectImages(listing, ImagesDir);
    if |images| == 0 {
      return NoImages;
    }
    var outcomes := Outcomes(images, put);
    var results := UploadAll(images, outcomes);
    KeptCount(images, outcomes);
    run := Uploaded(images, results, BuildMapping(results));
  }
}
