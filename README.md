# Prefix lister of the flask-app bucket browser, in Dafny

The repository serves one HTTP route that lists the "directory" contents of
an object-storage bucket. All of its logic is `list_s3_objects` in
`main.py`. The function does four things:

1. It normalises the prefix: a non-empty prefix that does not already end in
   `/` gets one appended.
2. It asks the store for every key under that prefix.
3. It skips the key equal to the prefix (the folder marker). From every other
   key it drops `len(prefix)` characters and keeps the text up to the first
   `/`: that is the key's immediate child.
4. It returns `{"content": sorted(set(children))}`. When the store call
   raises, it returns the pair `({"error": str(e)}, 500)` instead.

The model has three modules:

- `lexicographic.dfy` (module `Lexicographic`): Python's `str` ordering as
  `Less`, and `sorted(set(xs))` as `SortedSet`. It proves that `Less` is a
  strict total order. It also proves that a strictly increasing sequence is
  fixed by its elements, so `SortedSet(xs)` is the only sorted,
  duplicate-free listing of them.
- `lister.dfy` (module `Lister`): `ListS3Objects` is the function itself,
  written as a method. Like the source, it reassigns the prefix, loops over the
  objects and appends. It is proved equal to the specification function
  `Listing`. The lemmas about `Listing` give what the function promises:
  soundness, completeness, ordering, no `/` in any name, the folder marker
  ignored, empty input, and the error path.
- `scenarios.dfy` (module `ListerScenarios`): the two unit-test scenarios of
  `test-cases.py`, a nested-key example, and a failing store, each proved as
  a concrete listing.

The store call `s3_client.list_objects_v2(Bucket=..., Prefix=p)` is a
parameter `listObjectsV2: string -> StoreReply`. The method is proved to call
it with the normalised prefix. A reply is either `Replied(Response(contents))`
or `Raised(message)`. `contents` is `None` when the response has no
"Contents" field.

## Model

| member | source | states |
|---|---|---|
| `Lexicographic.Less` | main.py:29 | Python's `str <`: the first differing code point decides, and a proper prefix sorts first. Its properties are the order lemmas below |
| `Lexicographic.LessIrreflexive` | main.py:29 | no string sorts strictly before itself |
| `Lexicographic.LessTransitive` | main.py:29 | the string order used by `sorted` is transitive |
| `Lexicographic.LessTrichotomy` | main.py:29 | two strings are equal or one sorts strictly before the other: the order is total |
| `Lexicographic.LessAsymmetric` | main.py:29 | `a < b` excludes `b < a` |
| `Lexicographic.StrictlyIncreasingDistinct` | main.py:29 | a strictly increasing listing holds no name twice: the `set` step removes duplicates |
| `Lexicographic.InsertUnique` | main.py:29 | adding one element to a strictly increasing sequence keeps it strictly increasing, with exactly the old elements plus the new one (a duplicate is absorbed) |
| `Lexicographic.SortedSet` | main.py:29 | `sorted(set(xs))` is strictly increasing (sorted and duplicate-free) and holds exactly the elements of `xs` |
| `Lexicographic.StrictlyIncreasingUnique` | main.py:29 | two strictly increasing sequences with the same elements are equal |
| `Lexicographic.SortedSetCanonical` | main.py:29 | any strictly increasing sequence holding exactly the elements of `xs` is `SortedSet(xs)` |
| `Lister.NormalizePrefix` | main.py:16-17 | the result extends the prefix by at most one character. It is empty exactly when the prefix is. When non-empty it ends in `/`. A prefix already ending in `/` is unchanged |
| `Lister.NormalizePrefixIdempotent` | main.py:16-17 | normalising twice is normalising once |
| `Lister.StripPrefix` | main.py:26 | `key[len(prefix):]` is total: the empty string when the key is not longer than the prefix, otherwise `len(key) - len(prefix)` characters long. It is what follows the prefix when the key starts with it |
| `Lister.StripPrefixDropsLeading` | main.py:26 | character `j` of the slice is character `len(prefix) + j` of the key, whatever the key's first characters are |
| `Lister.FirstSlash` | main.py:26 | the index where `split("/")[0]` stops: no `/` before it, a `/` at it unless it is the end |
| `Lister.FirstSegment` | main.py:26 | `s.split("/")[0]`. `FirstSegmentSpec` pins it down as the longest `/`-free leading part of `s` |
| `Lister.FirstSegmentSpec` | main.py:26 | `s.split("/")[0]` is a prefix of `s` with no `/`, followed in `s` by a `/` or by nothing |
| `Lister.Child` | main.py:26 | `key[len(prefix):].split("/")[0]`. `ChildIsImmediate` and `ChildOfPath` characterise it as the path segment right after the prefix |
| `Lister.FirstSlashAfter` | main.py:26 | in `name + rest`, with `name` free of `/` and `rest` empty or starting with `/`, the first `/` is at `len(name)` |
| `Lister.ChildOfPath` | main.py:26 | a key `prefix + name + rest`, with `name` free of `/` and `rest` empty or starting with `/`, has child `name` |
| `Lister.ChildIsImmediate` | main.py:19-26 | for a key the store returns under the prefix: prefix + child is a leading part of the key, the child has no `/`, and after it the key ends or continues with `/` |
| `Lister.ObjectsOf` | main.py:22-23 | `response["Contents"]` when the field is present, and no objects when it is missing. `ListingOfNothing` states the missing case |
| `Lister.Children` | main.py:21-26 | the loop appends at most one name per object |
| `Lister.Contribution` | main.py:25-26 | one object adds at most one name |
| `Lister.ChildrenAppend` | main.py:23-26 | collecting over two runs of objects is collecting over each and concatenating |
| `Lister.ChildrenSound` | main.py:23-26 | every collected name is the child of some object whose key differs from the prefix |
| `Lister.ChildrenComplete` | main.py:23-26 | the child of every object whose key differs from the prefix is collected |
| `Lister.MarkerIgnored` | main.py:25 | an object whose key equals the prefix, wherever it stands, adds nothing |
| `Lister.Listing` | main.py:13-34 | the value `list_s3_objects` returns for the store's reply. `ListS3Objects` is proved equal to it, and the `Listing…` lemmas below state its properties |
| `Lister.ListS3Objects` | main.py:13-34 | normalises the prefix, queries the store with it, runs the collecting loop, and deduplicates and sorts. The result is `Listing` of the store's reply to the normalised prefix |
| `Lister.ListingOutcome` | main.py:33-34 | the result is an error exactly when the store raised. The error carries the exception's message and status 500, never a content list |
| `Lister.ListingContent` | main.py:21-31 | a reply always gives content. The content is strictly increasing (sorted, no duplicates) and holds a name exactly when some key other than the normalised prefix has it as its child |
| `Lister.ListingHasNoSlash` | main.py:26 | no listed name contains `/` |
| `Lister.ListingIgnoresMarker` | main.py:25 | inserting the folder-marker object anywhere in the reply leaves the listing unchanged |
| `Lister.ListingOfNothing` | main.py:21-31 | a missing "Contents" field and an empty one both give `{"content": []}`, not an error |
| `Lister.ListingEmptyIff` | main.py:21-31 | the content is empty exactly when every returned key equals the normalised prefix |
| `Lister.ListingDependsOnKeySet` | main.py:29 | two replies with the same set of objects give the same listing, whatever the order or repetition |
| `Lister.ListingNormalizedPrefix` | main.py:16-17 | listing `p` and listing its normalised form give the same result for the same reply |
| `ListerScenarios.TopLevelListing` | test-cases.py:16-20 | keys `dir1/`, `dir2/` under the empty prefix list as `["dir1", "dir2"]` |
| `ListerScenarios.DirectoryListing` | test-cases.py:23-27 | keys `dir2/file1`, `dir2/file2` under prefix `dir2` list as `["file1", "file2"]` |
| `ListerScenarios.NestedListing` | main.py:23-29 | keys `a/b/c`, `a/b/d`, `a/x` under `a/` list as `["b", "x"]`: deeper keys collapse to one child |
| `ListerScenarios.FailedListing` | main.py:33-34 | a store raising `AccessDenied` for prefix `dir1` lists as `Error("AccessDenied", 500)` |

## Left out

- The Flask application, its two routes and `jsonify` (main.py:1-4, 37-46) are not modelled. They are HTTP plumbing. `list_bucket_content` passes the returned `(dict, 500)` pair to `jsonify` as one value. So the model promises the status 500 only as part of `list_s3_objects`'s return value, not as the HTTP status of the response.
- The boto3 client, the bucket name and the network call (main.py:2, 7-10, 19) are replaced by the `listObjectsV2` parameter. Pagination and truncation belong to the store: the reply is taken as the complete key list.
- Exceptions other than the store call's are not modelled separately. A malformed response (an object without "Key", say) stands for the store raising. The message `str(e)` is an arbitrary string.
- Python strings may hold lone surrogate code points. Dafny's `char` excludes them; otherwise `Less` is Python's code-point order.
- The store is expected to return only keys that start with the prefix, but the model does not assume it. A key that does not start with the prefix is sliced as Python slices it. `ChildIsImmediate` states what the child means for keys that do start with it.
- `sorted(set(...))` is a library call. It is modelled as the pure functions `InsertUnique` and `SortedSet`, not as a loop. `SortedSetCanonical` shows that any sorted, duplicate-free result with the same names is that same sequence.
