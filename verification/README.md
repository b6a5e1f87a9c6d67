# Image migration scripts: a Dafny model

The repository moves a static site's images to Vercel Blob storage with two
scripts, and this project models both of them.

- `upload-images-to-blob.js` selects the image files in `./images` by
  extension. It uploads each one with the content type its extension gives
  and keeps the uploads that succeed, in order. It then writes a URL mapping
  in which every kept image gets three keys: `../images/N`, `/images/N` and
  `images/N`, all bound to the image's blob URL.
- `update-image-urls.js` walks the site for `.html` files, skipping hidden
  names and `node_modules`. In every file it replaces each mapping key,
  taken literally, by its URL. It goes key by key in mapping order, counts
  the replacements, writes back only the files with at least one
  replacement, and totals the counts.

The model is functional:

- File trees are a recursive datatype. File contents are given by a `read`
  function.
- The blob store is an oracle `put` that returns a URL, or `None` for a
  failed upload.
- The mapping is an ordered sequence of key/URL pairs with JavaScript-object
  assignment semantics.
- The regular expression built from an escaped key is modelled by a small
  tokenizer and matcher. The model proves that this pattern matches exactly
  where the key occurs, so each key step is literal replace-all over
  `seq<char>`.

Modules:

| module | file |
|---|---|
| `Strings` | `strings.dfy`: `Option`, `path.extname`, ASCII lower-casing, occurrence, sums |
| `RegexEscape` | `regex_escape.dfy`: the escaping at line 45, a tokenizer for patterns without the `u` flag, and the global match and replace of literal patterns |
| `LiteralReplace` | `literal_replace.dfy`: leftmost non-overlapping scan and replace-all |
| `FileTree` | `file_tree.dfy`: directory entries and paths |
| `HtmlWalker` | `html_walker.dfy`: `getAllHtmlFiles` |
| `UrlMapping` | `url_mapping.dfy`: the mapping object (lookup, assignment) |
| `Rewriter` | `rewriter.dfy`: `updateHtmlFile` and the totals loop of `main` |
| `Images` | `images.dfy`: `IMAGE_EXTENSIONS`, the content-type table, `getAllImages` |
| `Uploader` | `uploader.dfy`: the upload loop, the three-key mapping, `main` |
| `Handoff` | `handoff.dfy`: the mapping as written by one script and read by the other |

## Model

| member | source | states |
|---|---|---|
| Strings.ExtnameIsLastDotSuffix | update-image-urls.js:29 | `Extname`, the model of `path.extname`: a non-empty extension starts with a dot and is a proper suffix of the name. It holds no other dot. The extension is empty exactly when no dot follows the first character. |
| Strings.ToLower | upload-images-to-blob.js:35 | Lower-casing keeps the length and maps each character on its own. |
| Strings.SumAppend | update-image-urls.js:81-85 | The sum of a concatenation is the sum of the sums. |
| RegexEscape.Escape | update-image-urls.js:45 | Escaping adds characters and never removes any. What the escaped pattern means is stated by RegexEscape.EscapeTokenizesToLiterals. |
| RegexEscape.EscapeTokenizesToLiterals | update-image-urls.js:45 | Escaping every metacharacter of `.*+?^${}()\|[]\` gives a pattern whose tokens are exactly the key's characters, each a literal. |
| RegexEscape.EscapedPatternIsLiteral | update-image-urls.js:45-46 | The escaped pattern matches at position `i` of a text exactly when the key occurs there. |
| RegexEscape.UnescapedKeyLiteralIff | update-image-urls.js:45 | Without escaping, a key reads as a literal pattern if and only if it holds none of `^$\.*+?()[\|` and no braced quantifier `{n}`, `{n,}` or `{n,m}`. Every generated key holds a `.`, so the escaping is needed. |
| RegexEscape.LoneBracketsAreLiteral | update-image-urls.js:45 | Without the `u` flag, a lone `]`, `{` or `}` stands for itself: the unescaped key `a]{}` reads as a literal pattern. |
| RegexEscape.BracedQuantifierIsNotLiteral | update-image-urls.js:45 | A braced quantifier after a character is not read literally: the unescaped key `a{2}` does not read as a literal pattern. |
| RegexEscape.EscapedMatchesAreScan | update-image-urls.js:45-46 | For the escaped key, the positions the global `match` reports are exactly the positions of the literal left-to-right scan. |
| RegexEscape.EscapedReplaceIsReplaceAll | update-image-urls.js:45-48 | For the escaped key and a URL taken verbatim, the global `replace` gives exactly the text of literal replace-all. |
| RegexEscape.TokenizeShrinks | update-image-urls.js:45 | A pattern has no more tokens than characters. |
| LiteralReplace.ScanFrom | update-image-urls.js:46 | The scanned positions are non-overlapping windows of the key's length, in increasing order, at or after the start position. |
| LiteralReplace.ScanIsLeftmostNonOverlapping | update-image-urls.js:46 | The positions a global match finds are occurrences, each at the leftmost place not overlapping the previous one, with no occurrence skipped in between. |
| LiteralReplace.LeftmostNonOverlappingIsUnique | update-image-urls.js:46 | Exactly one position list has that property, so the match count is determined by the text and key. |
| LiteralReplace.ReplaceFrom | update-image-urls.js:48-49 | Rewriting from a position on, the rest of the text grows by count × (\|url\| − \|key\|), and count × \|key\| fits in the rest. |
| LiteralReplace.ReplaceAll | update-image-urls.js:48-49 | The new length is the old length plus count × (\|url\| − \|key\|). Count × \|key\| is at most the old length. |
| LiteralReplace.ReplaceAllReplacesLeftmostOccurrences | update-image-urls.js:46-49 | Replace-all swaps each leftmost non-overlapping occurrence for the URL, copies the text between them unchanged, and counts them. |
| LiteralReplace.ReplaceAllCountZeroIffAbsent | update-image-urls.js:46-47 | Nothing is counted if and only if the key occurs nowhere, and then the text is unchanged. |
| LiteralReplace.ReplaceFromIsSplice | update-image-urls.js:48 | Replacing from a position on splices the URL in at exactly the scanned positions. |
| Rewriter.KeyStep | update-image-urls.js:45-50 | One loop pass, computed with the escaped key's global `match` and `replace`, equals literal replace-all. Its count is zero if and only if the key does not occur, and then the text is untouched. The length grows by count × (\|url\| − \|key\|). |
| Rewriter.ApplyMapping | update-image-urls.js:44-51 | Applying the keys one after another, a zero total count leaves the text untouched. |
| Rewriter.ApplyMappingAppend | update-image-urls.js:44-51 | Keys run in mapping order, each on the previous output. Running `m1 + m2` is running `m1`, then `m2` on its result, and the counts add. |
| Rewriter.ApplyMappingZeroIffNoKeyOccurs | update-image-urls.js:44-51 | The file's count is zero if and only if no mapping key occurs in the original text, and then the text is unchanged. |
| Rewriter.UpdateHtmlFile | update-image-urls.js:37-61 | The returned count is the sum of the per-key counts in mapping order. The file is written back, with the rewritten text, if and only if that count is positive. |
| Rewriter.WriteBackIffSomeKeyOccurs | update-image-urls.js:53-58 | `WriteBack` leaves a file alone exactly when no mapping key occurs in it, and then the rewrite would not have changed it. Otherwise the file gets the rewritten text. |
| Rewriter.FileCounts | update-image-urls.js:82-83 | Entry `i` is the count of file `i`. |
| Rewriter.UpdateAll | update-image-urls.js:80-85 | Every file is processed in walk order with its own write-back decision. The total is the sum of the per-file counts. |
| Rewriter.CountsStep | update-image-urls.js:84 | One more file adds exactly its count to the total. |
| Rewriter.RewriteTree | update-image-urls.js:76-85 | The files processed are exactly those the walk finds from the root. Each file's write and the total are as above. |
| HtmlWalker.NoneSkippedIsEvery | update-image-urls.js:22-25 | A path passes the skip test exactly when none of its components starts with `.` or equals `node_modules`. |
| HtmlWalker.HtmlFiles | update-image-urls.js:15-35 | Every path the walk returns is below the start directory. No component below it is skipped. The last component has extension exactly `.html`. |
| HtmlWalker.HtmlFilesIsEligibleFilter | update-image-urls.js:15-35 | The walk equals an independent definition: keep, in listing order with directories expanded in place, exactly the files whose path is eligible. |
| HtmlWalker.EntryHtmlFiles | update-image-urls.js:18-31 | Every path one entry contributes is below the directory and eligible relative to it. |
| HtmlWalker.HtmlFilesIntoAppends | update-image-urls.js:15-35 | `HtmlFilesInto` threads one `fileList` array through the recursive calls and pushes onto it, as the source does. It appends exactly what `HtmlFiles` returns, so the walk from `.` with a fresh array is `HtmlFiles(root, [])`. |
| HtmlWalker.EntryHtmlFilesIsEligibleFilter | update-image-urls.js:18-31 | The same for one entry of a listing. A skipped name contributes nothing. A directory contributes its eligible files. |
| HtmlWalker.KeepEligibleAppend | update-image-urls.js:18-32 | The reference filter distributes over concatenation, so it can be taken entry by entry. |
| HtmlWalker.KeepNoneBelowSkipped | update-image-urls.js:23-24 | Nothing below a skipped directory is kept. |
| HtmlWalker.AllFiles | update-image-urls.js:27-30 | Every file path found lies strictly below the directory it was found from. |
| UrlMapping.Lookup | upload-images-to-blob.js:112-114 | A key is found if and only if it is bound. |
| UrlMapping.Assign | upload-images-to-blob.js:112-114 | After `obj[k] = v`, `k` finds `v` and every other key finds what it found before. |
| UrlMapping.AssignPositions | upload-images-to-blob.js:112-114 | A new key goes to the end. An existing key keeps its place. Every entry is the assigned one or the one at that position before. |
| UrlMapping.AssignKeepsDistinct | upload-images-to-blob.js:112-114 | Assignment never binds a key twice. |
| UrlMapping.LookupAt | update-image-urls.js:44 | With distinct keys, the key at position `p` looks up the value at position `p`. |
| Images.ContentTypeIsTotal | upload-images-to-blob.js:38-49 | `ContentType` always gives a type. It is the default `application/octet-stream` exactly for extensions outside `IMAGE_EXTENSIONS`, and an `image/` type for the rest. |
| Images.SelectImages | upload-images-to-blob.js:67-84 | At most one image per entry, each recorded as `./images/<name>`. |
| Images.SelectImagesIsOrderedFilter | upload-images-to-blob.js:67-84 | The selection is the image entries in increasing listing order. Each is a regular file whose lower-cased extension is an image extension. Every such entry is selected. |
| Images.SelectedImagesHaveImageTypes | upload-images-to-blob.js:30-49 | No selected image is uploaded with the default content type. |
| Images.SelectedNamesDistinct | upload-images-to-blob.js:69-78 | Names in one directory are distinct, so the selected names are too. |
| Uploader.Outcomes | upload-images-to-blob.js:100-101 | Each image is offered to the store once, in order, with the request `uploadImage` builds for it. |
| Uploader.RequestFor | upload-images-to-blob.js:35-57 | The request for an image gets the generic content type exactly when its name has no image extension. |
| Uploader.UploadAll | upload-images-to-blob.js:99-107 | The loop collects exactly the kept uploads. |
| Uploader.KeptCount | upload-images-to-blob.js:99-107 | At most one result per image. None if and only if every upload failed. All of them when every upload succeeded. |
| Uploader.KeptIsSuccessSubsequence | upload-images-to-blob.js:99-107 | `Kept`, the results of the loop, are the successful attempts in increasing order, each with its image's name and URL, and no success is dropped. |
| Uploader.ResultNamesDistinct | upload-images-to-blob.js:99-104 | Distinct image names give distinct result names. |
| Uploader.Spelling | upload-images-to-blob.js:112-114 | Each key spelling ends with the file name. |
| Uploader.SpellingInjective | upload-images-to-blob.js:112-114 | Two spellings are equal if and only if they have the same form and name. |
| Uploader.AddResultLookup | upload-images-to-blob.js:111-115 | `AddResult`, one turn of the `forEach`: after one result, its three spellings find its URL and every other key is unchanged. |
| Uploader.BuildMappingDistinct | upload-images-to-blob.js:110-115 | The built mapping never binds a key twice. |
| Uploader.BuildMappingLookup | upload-images-to-blob.js:110-115 | In `BuildMapping(results)`, a key finds the URL of the last result it spells, and nothing if it spells none. |
| Uploader.BuildMappingEntries | upload-images-to-blob.js:110-115 | Every entry of the mapping is one spelling of some result, bound to that result's URL. |
| Uploader.EverySpellingMapsToItsUrl | upload-images-to-blob.js:110-115 | With distinct names, all three spellings of every result find that result's URL. |
| Uploader.MappingLayout | upload-images-to-blob.js:110-115 | With distinct names the mapping has exactly 3 × \|results\| entries. Result `t` occupies positions 3t, 3t+1 and 3t+2 as `../images/N`, `/images/N`, `images/N`. |
| Uploader.AddResultAppends | upload-images-to-blob.js:111-115 | A new name appends its three keys at the end, in that order. |
| Uploader.UploadedMappingIsValid | upload-images-to-blob.js:110-115 | When no URL has a `$`, the mapping has non-empty keys and `$`-free values. |
| Uploader.LongerSpellingContainsShorter | upload-images-to-blob.js:112-114 | Wherever `../images/N` occurs, `/images/N` and `images/N` occur inside it. Since the longer key comes first in the mapping, the rewriter replaces the whole path before trying its suffixes. |
| Uploader.RunUpload | upload-images-to-blob.js:86-120 | No images means an early return with no request and no mapping. Otherwise one request per image, the kept uploads, and the three-key mapping built from them. |
| Handoff.LoggedMappingCount | update-image-urls.js:74 | With distinct names the key count is divisible by 3, and the logged quotient is the number of kept uploads. |
| Handoff.DirectoryKeysMapToTheirUrls | upload-images-to-blob.js:67-115 | For a real directory listing, every key of every kept upload maps to that upload's URL, and the mapping has 3 × \|results\| keys. |
| Handoff.UploadedMappingFeedsRewriter | upload-images-to-blob.js:99-120 | When the store never returns a URL containing `$`, the written mapping meets the rewriter's precondition. |

## Left out

- The network upload (`put` at upload-images-to-blob.js:53-57) is the oracle `put`. Its other behaviour (retries, URL shape, other options) is not modelled.
- A failure to read an image file (line 34) is folded into the oracle's `None`, as the `catch` at line 61 folds both.
- The 100 ms delay between uploads (upload-images-to-blob.js:106) is left out, as is all console output.
- File-system access is left out: `readdirSync`, `statSync`, `readFileSync` and `writeFileSync`. Listings are entries, contents come from `read`, and writes are returned values.
  - JSON serialisation and parsing of the mapping are identity on the ordered pair sequence.
  - Insertion order survives because no generated key looks like an array index.
- The credential guard (upload-images-to-blob.js:17-27), the mapping-file guard (update-image-urls.js:67-71) and `process.exit` are left out. The rejected `main` promise (line 96) is left out too.
- `statSync` runs before the skip test (update-image-urls.js:20), so an entry with a skipped name that `statSync` cannot stat still aborts the walk. Symlinks and unreadable directories are also not modelled: every entry is a file, a directory or a special file.
- `path.extname` is modelled as the suffix from the last dot, unless that dot is at index 0. Names made only of dots are not modelled separately.
- Lower-casing covers ASCII letters only. `toLowerCase` on other scripts is not modelled.
- Regular expressions are modelled only as far as the escaped key needs. The tokenizer tells literal characters from syntax characters, braced quantifiers and backslash sequences, and only literal patterns are matched. Character classes, groups and the reading of individual backslash sequences are not modelled.
- Idempotence of a second rewriting run is not stated. The scripts do not promise it, and it fails for a key that overlaps itself.
- The `/ 3` at update-image-urls.js:74 is floating-point division. Only the case where it is exact is stated, which holds when the names are distinct.
- Rewriter.KeyStep: requires a non-empty key and a URL without `$`. `String.prototype.replace` reads `$&`, `$1` and `$$` in the URL as substitution patterns, and an empty global pattern matches between every two characters. Neither case is modelled; the generated mapping never has an empty key, and Handoff.UploadedMappingFeedsRewriter shows when it has no `$`.
- Rewriter.ApplyMapping: requires `ValidMapping` for the same reason.
- Rewriter.UpdateHtmlFile: requires `ValidMapping` for the same reason.
- Rewriter.UpdateAll: requires `ValidMapping` for the same reason.
- Rewriter.RewriteTree: requires `ValidMapping` for the same reason.
