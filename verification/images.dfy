/** Finding the images to upload and their content types
    (upload-images-to-blob.js:30-49, 67-84). */
module Images {
  import opened Strings
  import opened FileTree

  /** `IMAGE_EXTENSIONS`, compared against the lower-cased extension. */
  const ImageExtensions: seq<string> := [".jpg", ".jpeg", ".png", ".gif", ".webp", ".svg", ".ico", ".heic"]

  /** `contentTypeMap` inside `uploadImage`. */
  const ContentTypes: map<string, string> := map[
    ".jpg" := "image/jpeg",
    ".jpeg" := "image/jpeg",
    ".png" := "image/png",
    ".gif" := "image/gif",
    ".webp" := "image/webp",
    ".svg" := "image/svg+xml",
    ".ico" := "image/x-icon",
    ".heic" := "image/heic"
  ]

  const DefaultContentType: string := "application/octet-stream"

  /** `contentTypeMap[ext] || 'application/octet-stream'`: total, a table
      hit or else the generic binary type. (The extension is empty or starts
      with a dot, so it never names one of the object's inherited
      properties.) */
  function ContentType(ext: string): string
  {
    if ext in ContentTypes then ContentTypes[ext] else DefaultContentType
  }

  /** The lookup gives a specific image type exactly for the extensions the
      selection accepts, and the generic binary type for everything else. */
  lemma ContentTypeIsTotal(ext: string)
    ensures ContentType(ext) == DefaultContentType <==> ext !in ImageExtensions
    ensures ext in ImageExtensions ==> |ContentType(ext)| > 6 && ContentType(ext)[..6] == "image/"
  {
  }

  /** `{ filePath, fileName }` as `getAllImages` records it. */
  datatype Image = Image(filePath: Path, fileName: string)

  /** The lower-cased extension that both the selection and the content-type
      lookup use. */
  function LowerExt(name: string): string
  {
    ToLower(Extname(name))
  }

  /** A name whose lower-cased extension is an image extension. */
  predicate IsImageName(name: string)
  {
    LowerExt(name) in ImageExtensions
  }

  /** An entry `getAllImages` keeps: a regular file (not a directory, not a
      special file) with an image name. */
  predicate IsImageEntry(e: Entry)
  {
    e.File? && IsImageName(e.name)
  }

  /** `getAllImages(directory)` over the directory's listing: a flat filter,
      no recursion, in listing order. */
  function SelectImages(listing: seq<Entry>, dir: Path): (images: seq<Image>)
    ensures |images| <= |listing|
    ensures forall t :: 0 <= t < |images| ==>
              images[t].filePath == dir + [images[t].fileName]
  {
    if |listing| == 0 then []
    else
      var e := listing[0];
      (if IsImageEntry(e) then [Image(dir + [e.name], e.name)] else []) + SelectImages(listing[1..], dir)
  }

  /** Every image entry's position is in `idx`. */
  predicate CoversImages(listing: seq<Entry>, idx: seq<nat>)
  {
    forall j :: 0 <= j < |listing| && IsImageEntry(listing[j]) ==> j in idx
  }

  /** `images[t]` is the image entry at position `idx[t]`, recorded under
      `dir`. */
  predicate ComeFrom(images: seq<Image>, listing: seq<Entry>, dir: Path, idx: seq<nat>)
  {
    && |idx| == |images|
    && forall t :: 0 <= t < |idx| ==> ImageAt(images[t], listing, dir, idx[t])
  }

  /** `idx` lists, in increasing order, the positions in `listing` the
      selected images come from, and every image entry's position is among
      them. */
  predicate PicksImages(listing: seq<Entry>, dir: Path, idx: seq<nat>)
  {
    && Increasing(idx)
    && CoversImages(listing, idx)
    && ComeFrom(SelectImages(listing, dir), listing, dir, idx)
    && ImageNames(SelectImages(listing, dir))
  }

  /** Every image has an image name. */
  predicate ImageNames(images: seq<Image>)
  {
    forall t :: 0 <= t < |images| ==> IsImageName(images[t].fileName)
  }

  /** Positions one further along. */
  function Shift(idx: seq<nat>): (r: seq<nat>)
    ensures |r| == |idx| && forall t :: 0 <= t < |idx| ==> r[t] == idx[t] + 1
  {
    if |idx| == 0 then [] else [idx[0] + 1] + Shift(idx[1..])
  }

  lemma ShiftIncreasing(rest: seq<nat>)
    requires Increasing(rest)
    ensures Increasing(Shift(rest)) && Increasing([0] + Shift(rest))
  {
    var idx := [0] + Shift(rest);
    forall a, b | 0 <= a < b < |idx|
      ensures idx[a] < idx[b]
    {
      assert idx[b] == rest[b - 1] + 1;
      if a > 0 {
        assert idx[a] == rest[a - 1] + 1;
      }
    }
  }

  /** Every image entry after the first is found among the tail's positions,
      shifted. */
  lemma ShiftCovers(listing: seq<Entry>, rest: seq<nat>)
    requires |listing| > 0 && CoversImages(listing[1..], rest)
    ensures forall j :: 1 <= j < |listing| && IsImageEntry(listing[j]) ==> j in Shift(rest)
    ensures !IsImageEntry(listing[0]) ==> CoversImages(listing, Shift(rest))
    ensures CoversImages(listing, [0] + Shift(rest))
  {
    var shifted := Shift(rest);
    forall j | 1 <= j < |listing| && IsImageEntry(listing[j])
      ensures j in shifted
    {
      CoveredShift(listing, rest, j);
    }
    if !IsImageEntry(listing[0]) {
      forall j | 0 <= j < |listing| && IsImageEntry(listing[j])
        ensures j in shifted
      {
        assert j != 0;
      }
    }
    forall j | 0 <= j < |listing| && IsImageEntry(listing[j])
      ensures j in [0] + shifted
    {
      if j > 0 {
        assert j in shifted;
      }
    }
  }

  /** An image entry after the first, covered in the tail, is covered one
      position further along. */
  lemma CoveredShift(listing: seq<Entry>, rest: seq<nat>, j: nat)
    requires 1 <= j < |listing| && IsImageEntry(listing[j]) && CoversImages(listing[1..], rest)
    ensures j in Shift(rest)
  {
    assert listing[1..][j - 1] == listing[j];
    assert j - 1 in rest;
    var t :| 0 <= t < |rest| && rest[t] == j - 1;
    assert Shift(rest)[t] == j;
  }

  /** `image` is the regular file at position `i` of `listing`, recorded
      under `dir`. */
  predicate ImageAt(image: Image, listing: seq<Entry>, dir: Path, i: nat)
  {
    i < |listing| && listing[i] == File(image.fileName) && image.filePath == dir + [image.fileName]
  }

  /** An image found at position `j` of the tail is found one position
      further along in the whole listing. */
  lemma ImageAtShift(image: Image, listing: seq<Entry>, dir: Path, j: nat)
    requires |listing| > 0 && ImageAt(image, listing[1..], dir, j)
    ensures ImageAt(image, listing, dir, j + 1)
  {
    assert listing[j + 1] == listing[1..][j];
  }

  /** Images found in the tail are found in the whole listing, one position
      further along. */
  lemma ComeFromShift(images: seq<Image>, listing: seq<Entry>, dir: Path, rest: seq<nat>)
    requires |listing| > 0 && ComeFrom(images, listing[1..], dir, rest)
    ensures ComeFrom(images, listing, dir, Shift(rest))
  {
    var idx := Shift(rest);
    forall t | 0 <= t < |idx|
      ensures ImageAt(images[t], listing, dir, idx[t])
    {
      ImageAtShift(images[t], listing, dir, rest[t]);
    }
  }

  /** One more image in front, found at position `i`. */
  lemma ComeFromCons(image: Image, images: seq<Image>, listing: seq<Entry>, dir: Path, i: nat, idx: seq<nat>)
    requires ImageAt(image, listing, dir, i) && ComeFrom(images, listing, dir, idx)
    ensures ComeFrom([image] + images, listing, dir, [i] + idx)
  {
    var all := [image] + images;
    var at := [i] + idx;
    forall t | 0 <= t < |at|
      ensures ImageAt(all[t], listing, dir, at[t])
    {
      if t > 0 {
        assert all[t] == images[t - 1] && at[t] == idx[t - 1];
      }
    }
  }

  /** Where the selected images of a listing whose first entry is an image
      come from, given where those of its tail come from. */
  lemma ComeFromConsImage(listing: seq<Entry>, dir: Path, rest: seq<nat>)
    requires |listing| > 0 && IsImageEntry(listing[0])
    requires ComeFrom(SelectImages(listing[1..], dir), listing[1..], dir, rest)
    ensures ComeFrom(SelectImages(listing, dir), listing, dir, [0] + Shift(rest))
  {
    var tailImages := SelectImages(listing[1..], dir);
    var first := Image(dir + [listing[0].name], listing[0].name);
    assert SelectImages(listing, dir) == [first] + tailImages;
    ComeFromShift(tailImages, listing, dir, rest);
    ComeFromCons(first, tailImages, listing, dir, 0, Shift(rest));
  }

  /** The same when the first entry is not an image. */
  lemma ComeFromConsOther(listing: seq<Entry>, dir: Path, rest: seq<nat>)
    requires |listing| > 0 && !IsImageEntry(listing[0])
    requires ComeFrom(SelectImages(listing[1..], dir), listing[1..], dir, rest)
    ensures ComeFrom(SelectImages(listing, dir), listing, dir, Shift(rest))
  {
    assert SelectImages(listing, dir) == SelectImages(listing[1..], dir);
    ComeFromShift(SelectImages(listing[1..], dir), listing, dir, rest);
  }

  /** The selection keeps only image names. */
  lemma {:induction false} SelectedAreImages(listing: seq<Entry>, dir: Path)
    ensures ImageNames(SelectImages(listing, dir))
  {
    if |listing| > 0 {
      SelectedAreImages(listing[1..], dir);
    }
  }

  /** The selection keeps exactly the image entries, in listing order. */
  lemma {:induction false} SelectImagesIsOrderedFilter(listing: seq<Entry>, dir: Path) returns (idx: seq<nat>)
    ensures PicksImages(listing, dir, idx)
  {
    if |listing| == 0 {
      idx := [];
    } else {
      var rest := SelectImagesIsOrderedFilter(listing[1..], dir);
      SelectedAreImages(listing, dir);
      ShiftIncreasing(rest);
      ShiftCovers(listing, rest);
      if IsImageEntry(listing[0]) {
        ComeFromConsImage(listing, dir, rest);
        idx := [0] + Shift(rest);
      } else {
        ComeFromConsOther(listing, dir, rest);
        idx := Shift(rest);
      }
    }
  }

  /** Every image the selection keeps is uploaded with a specific image
      content type, never the generic fallback. */
  lemma SelectedImagesHaveImageTypes(listing: seq<Entry>, dir: Path)
    ensures forall t :: 0 <= t < |SelectImages(listing, dir)| ==>
              ContentType(LowerExt(SelectImages(listing, dir)[t].fileName)) != DefaultContentType
  {
    var images := SelectImages(listing, dir);
    SelectedAreImages(listing, dir);
    forall t | 0 <= t < |images|
      ensures ContentType(LowerExt(images[t].fileName)) != DefaultContentType
    {
      ContentTypeIsTotal(LowerExt(images[t].fileName));
    }
  }

  /** In a directory's listing names are distinct, and so are the names of
      the selected images. */
  lemma SelectedNamesDistinct(listing: seq<Entry>, dir: Path)
    requires DistinctNames(listing)
    ensures forall a, b :: 0 <= a < b < |SelectImages(listing, dir)| ==>
              SelectImages(listing, dir)[a].fileName != SelectImages(listing, dir)[b].fileName
  {
    var idx := SelectImagesIsOrderedFilter(listing, dir);
  }
}
