/** Where the two scripts meet: the mapping upload-images-to-blob.js writes
    (lines 110-120) is the mapping update-image-urls.js reads back (line 73)
    and walks in insertion order. */
module Handoff {
  import opened Strings
  import opened FileTree
  import opened Images
  import opened UrlMapping
  import opened Uploader
  import opened Rewriter

  /** The count update-image-urls.js logs on loading (line 74),
      `Object.keys(urlMapping).length / 3`, is the number of kept uploads
      when their names are distinct. (The division is exact, so the
      floating-point quotient is that whole number.) */
  lemma LoggedMappingCount(results: seq<UploadResult>)
    requires DistinctResultNames(results)
    ensures |BuildMapping(results)| % 3 == 0
    ensures |BuildMapping(results)| / 3 == |results|
  {
    var m := BuildMapping(results);
    MappingLayout(results);
    ThirdOfTriple(|m|, |results|);
  }

  lemma ThirdOfTriple(a: nat, b: nat)
    requires a == 3 * b
    ensures a % 3 == 0 && a / 3 == b
  {
  }

  /** The names in one directory are distinct, so the names of the kept
      uploads are too, and every one of their keys maps to its own URL. */
  lemma DirectoryKeysMapToTheirUrls(listing: seq<Entry>, put: UploadRequest -> Option<string>)
    requires DistinctNames(listing)
    ensures var images := SelectImages(listing, ImagesDir);
            var results := Kept(images, Outcomes(images, put));
            && DistinctResultNames(results)
            && |BuildMapping(results)| == 3 * |results|
            && forall t, f :: 0 <= t < |results| ==>
                 Lookup(BuildMapping(results), Spelling(f, results[t].fileName)) == Some(results[t].url)
  {
    var images := SelectImages(listing, ImagesDir);
    var results := Kept(images, Outcomes(images, put));
    SelectedNamesDistinct(listing, ImagesDir);
    ResultNamesDistinct(images, Outcomes(images, put));
    MappingLayout(results);
    forall t, f | 0 <= t < |results|
      ensures Lookup(BuildMapping(results), Spelling(f, results[t].fileName)) == Some(results[t].url)
    {
      EverySpellingMapsToItsUrl(results, t, f);
    }
  }

  /** When the store never hands back a URL with a `$`, the mapping the
      upload writes is one the rewriter can use: every key non-empty, no
      substitution pattern in any URL. */
  lemma UploadedMappingFeedsRewriter(listing: seq<Entry>, put: UploadRequest -> Option<string>)
    requires forall req :: put(req).Some? ==> '$' !in put(req).value
    ensures var images := SelectImages(listing, ImagesDir);
            ValidMapping(BuildMapping(Kept(images, Outcomes(images, put))))
  {
    var images := SelectImages(listing, ImagesDir);
    var outcomes := Outcomes(images, put);
    var results := Kept(images, outcomes);
    var idx := KeptIsSuccessSubsequence(images, outcomes);
    forall t | 0 <= t < |results|
      ensures '$' !in results[t].url
    {
      assert UploadedAs(images, outcomes, idx[t], results[t]);
      assert outcomes[idx[t]] == put(RequestFor(images[idx[t]]));
    }
    UploadedMappingIsValid(results);
  }
}
