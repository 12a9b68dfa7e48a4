# Bundle store model

A Dafny model of the bundle store in `internal/store/bundle.go`. The store is a local
on-disk cache of CNAB application bundles, keyed by registry references such as
`myrepo/myapp:0.1.0` or `myrepo/myapp@sha256:…`. It has two parts:

- **The reference/path codec.**
  - `storePath` files a tagged reference at `<root>/<name>/_tags/<tag>.json`.
  - It files a digested reference at `<root>/<name>/_digests/<alg>/<hex>.json`.
  - In both layouts, the first `:` of the name (a registry `host:port`) is written as `_`.
  - `pathToReference` and `reconstructNamedReference` read such a path back as a reference.
- **The store protocol.**
  - `Store`, `Read` and `List` work over the directory tree under the root.
  - `LookupOrPullBundle` answers from the cache, or pulls the bundle from a registry and caches it.

Files:

- `errors.dfy` (module `Errors`): the error values and their wrappers, `errors.Cause`,
  `os.IsNotExist`, and the `Result`/`Option` types.
- `strings.dfy` (module `Strings`): the parts of Go's `strings` package the store uses,
  on `seq<char>` with `/` as the only separator. It also has Go's `<` on strings.
- `reference.dfy` (module `References`): registry references as a datatype.
  - Four cases: bare, tagged, digested, and both tagged and digested.
  - Their canonical text, `reference.TagNameOnly`, and a structural `reference.ParseNamed`.
- `codec.dfy` (module `Codec`): `storePath`, `pathToReference` and `reconstructNamedReference`.
  - `reconstructNamedReference` appears both as a function and as the source's loop,
    proved equal to that function.
  - Also here: the marker-position rules, the round trip, collision freedom, and digest-before-tag precedence.
- `store.dfy` (module `Store`): the class `BundleStore`. Its fields:
  - `root`: the store root;
  - `files`: the regular files under the root, a map from path to file;
  - `denied`: the paths the operating system refuses to write;
  - `pulls`: a ghost log of the references handed to the pull.

  Its operations: `Read`, `Store`, `LookupOrPullBundle`, the walk of `List`, and `List`
  itself, which sorts in place by name.

Modelling choices:

- A file is `Json(bundle)`, or `Garbage` (content `json.Unmarshal` rejects), or `Forbidden`
  (a file that cannot be read).
- A path is `Blocked` when it cannot hold a file. Either some file lies where one of the path's
  directories must be, or the path is itself a directory. Then `MkdirAll`/`WriteFile` fail, and
  reading the path fails with an error that is not "does not exist" (ENOTDIR or EISDIR).
- The remote pull (`remotes.Pull` with its resolver, registry configuration and insecure
  registries) is a function parameter `pull: Reference -> Result<Bundle>`.

Behaviour of the code that is easy to misread, as the model captures it:

- **Bare references.** `LookupOrPullBundle` on a reference with neither tag nor digest does not
  store the pulled bundle under the tag-applied form:
  - With `pullRef = false`, `Read` fails with the "not tagged or digested" error. That error is not a
    NotExist error, so no pull happens and the error is returned.
  - With `pullRef = true`, the code pulls `name:latest` and then fails to store under the bare
    reference, so the call returns an error.
  - `LookupOrPullBundle` states both outcomes (`ref.Bare? ==> r.Err?`). The CLI's
    `internal/commands/pull.go:75` applies `TagNameOnly` before calling the store.
- **The ".json" check.** The test is containment, not a suffix: decoding only asks that the last
  segment *contain* `.json`, then removes a trailing `.json` if there is one.
  `Codec.ContainsNotSuffix` shows a file named `v.json.1` decoding to the tag `v.json.1`.
  `Codec.JsonNameNotRejected` shows this check never rejects a file `List` decodes, because
  `List` only decodes names ending with `.json`.
- **Round trip and collision freedom.** The code comments rely on `_` never occurring in a name.
  On that point the proofs need less: only the name's first component must be free of `_`. In
  other respects they ask for more. The predicate is `Codec.Storable`:
  - no `_` in the name's first component;
  - no later component that is exactly `_tags` or `_digests`;
  - the reference is `References.Unambiguous`:
    - a non-empty name without `@`, whose every `:` lies in its first component with a `/` later
      in the name (the first component may hold more than one `:`, as in `a:b:c/x`);
    - a non-empty tag without `:`, `/` or `@`;
    - a non-empty algorithm without `:`, and a non-empty hex;
  - no `/` in the tag, algorithm or hex.

  The round trip and collision freedom are proved for `Storable` references that are tagged or
  digested but not both. A reference with both is filed at, and read back as, its digest-only
  form (`Codec.DigestTakesPrecedence`).

## Model

| member | source | states |
|---|---|---|
| `Strings.ReplaceFirst` | internal/store/bundle.go:135 | `strings.Replace(s, ":", "_", 1)`: the first occurrence, and only it, is replaced; every later `:` and every other character is kept |
| `Strings.ReplaceFirstUndone` | internal/store/bundle.go:180 | replacing the first `:` by `_` and then the first `_` by `:` gives back any string that held no `_` |
| `Strings.Split` | internal/store/bundle.go:158 | `strings.Split` on `/`: at least one piece, no piece holds a `/`, and joining the pieces with `/` gives the input back |
| `Strings.SplitJoin` | internal/store/bundle.go:158 | the other direction: pieces without `/`, joined and split again, come back unchanged |
| `Strings.SuffixContained` | internal/store/bundle.go:164 | a string that ends with `.json` passes `strings.Contains(_, ".json")` |
| `Strings.Contains` | internal/store/bundle.go:164 | `strings.Contains`: holds exactly when `sub` occurs at some position of `s` |
| `Strings.TrimPrefix` | internal/store/bundle.go:155 | `strings.TrimPrefix`: a leading prefix is removed (prefix plus result give the input back); without it the input is unchanged |
| `Strings.TrimSuffix` | internal/store/bundle.go:169 | `strings.TrimSuffix`: a trailing suffix is removed (result plus suffix give the input back); without it the input is unchanged |
| `Strings.LexLess` | internal/store/bundle.go:94 | Go's `<` on strings: holds exactly when the two agree up to some position where the first ends or has the smaller character; the order lemmas below make it a strict total order |
| `Strings.LexLessAsymmetric` | internal/store/bundle.go:93-95 | Go's `<` on names is asymmetric |
| `Strings.LexLeqTransitive` | internal/store/bundle.go:93-95 | "not greater" on names is transitive, so "sorted by name" is a consistent order |
| `Strings.LexLessTotal` | internal/store/bundle.go:93-95 | any two different names are ordered one way or the other |
| `Errors.Cause` | internal/store/bundle.go:110 | `errors.Cause` ends at an error that is not a wrapper, an unwrapped error is its own cause, and a wrapper's cause is the cause of the error it wraps, so wrapping keeps the underlying cause |
| `Errors.IsNotExist` | internal/store/bundle.go:110 | `os.IsNotExist(errors.Cause(err))`: sees through every wrapper, and on an unwrapped error holds exactly for the "does not exist" error |
| `References.String` | internal/store/bundle.go:146 | `ref.String()`: starts with the name, and for an unambiguous reference holds an `@` exactly when it is digested; `References.ParseString` proves the text parses back to the reference |
| `References.TagNameOnly` | internal/store/bundle.go:114 | keeps the name, gives a bare reference the tag `latest` and leaves a tagged or digested reference unchanged |
| `References.ParseNamed` | internal/store/bundle.go:176 | every failure of the parse is an `Unparsable` error on the text it was given |
| `References.ParseString` | internal/store/bundle.go:176 | the canonical text of every unambiguous reference (all four kinds) parses back to that reference |
| `Codec.StorePath` | internal/store/bundle.go:124-150 | fails exactly for a reference with neither tag nor digest, with the "not tagged or digested" error on its text; otherwise the path lies below `root/` and ends with `.json` |
| `Codec.InStore` | internal/store/bundle.go:136-149 | the store directory joined under the root plus `.json`: stripping `root/` leaves the relative path followed by `.json` |
| `Codec.StoreSegments` | internal/store/bundle.go:135-149 | the relative segments of a stored reference's path are the encoded name's segments followed by `_digests, alg, hex.json` for a digested reference (tested first) or `_tags, tag.json` for a tagged one |
| `Codec.SplitEncodedName` | internal/store/bundle.go:135-136 | writing the host's `:` as `_` changes only the first path component of the name |
| `Codec.DigestTakesPrecedence` | internal/store/bundle.go:139-144 | a reference with both tag and digest is filed exactly where its digest-only form is, and reads back as that digest-only reference |
| `Codec.RelativeSegments` | internal/store/bundle.go:153-158 | the path below the root cut at every `/`: no segment holds a `/`, and joining the segments with `/` gives back the path with `root/` stripped |
| `Codec.StripExtension` | internal/store/bundle.go:169 | only the last segment changes: a trailing `.json` is removed from it, and a last segment without that suffix is kept as it is |
| `Codec.Reconstruct` | internal/store/bundle.go:179-198 | every failure is the "invalid path" error on the full path, and segments without a marker always succeed; `Codec.ReconstructByPosition` gives the full result by the first marker's position |
| `Codec.PathToReference` | internal/store/bundle.go:152-177 | fewer than three segments after the root is an "invalid path" error; a last segment without `.json` anywhere in it is a "not referencing a CNAB bundle in json format" error |
| `Codec.ContainsNotSuffix` | internal/store/bundle.go:163-169 | the `.json` check is containment, not a suffix: a file named by a tag like `v.json.1` (no extension) decodes to that tag |
| `Codec.JsonNameNotRejected` | internal/store/bundle.go:77-81 | a path ending with `.json`, the only kind the walk decodes, never fails the containment check of line 164 |
| `Codec.ScanMarkers` | internal/store/bundle.go:181-197 | every error of the scan is the "invalid path" error on the full path |
| `Codec.ReconstructNamedReference` | internal/store/bundle.go:179-198 | the source's loop, with early returns, computes exactly the scan `Codec.Reconstruct` |
| `Codec.ReconstructByPosition` | internal/store/bundle.go:179-198 | decided by the first marker: none joins all segments with `/`; `_tags` must be second to last (gives `name:tag`); `_digests` must be third to last (gives `name@alg:hex`); a marker elsewhere is an error |
| `Codec.ScanPastName` | internal/store/bundle.go:193-195 | segments before the first marker are appended to the name with `/` |
| `Codec.RebuildName` | internal/store/bundle.go:180-195 | from the encoded name's segments the scan rebuilds the original name: the first `_` back to `:`, the other components rejoined |
| `Codec.ReconstructRoundTrip` | internal/store/bundle.go:124-198 | for a storable tagged or digested reference, stripping the root and `.json` from its store path and reconstructing gives its canonical text |
| `Codec.PathRoundTrip` | internal/store/bundle.go:124-177 | the full decoder reads a storable tagged or digested reference's store path back as that very reference |
| `Codec.NoCollisions` | internal/store/bundle.go:138-149 | two different storable tagged or digested references are filed at different paths |
| `Codec.DecodeRebuilt` | internal/store/bundle.go:171-176 | once the checks pass and the segments rebuild an unambiguous reference's text, the decoder returns that reference |
| `Store.BundleStore.constructor` | internal/store/bundle.go:33-35 | a store over a root and a directory tree below it |
| `Store.BundleStore.Read` | internal/store/bundle.go:49-63 | succeeds exactly when the reference has a store path holding decodable content, and returns that bundle; a bare reference gives the wrapped "not tagged or digested" error; the error is a NotExist error exactly when nothing lies at the path or in its way; every error is wrapped with the reference |
| `Store.BundleStore.Store` | internal/store/bundle.go:37-47 | succeeds exactly when the reference has a store path that can be written; the new directory is the old one with the bundle at that path, so `Read` returns it; on failure nothing changes and the wrapped error names the cause; the tree invariant `Valid` is kept |
| `Store.BundleStore.LookupOrPullBundle` | internal/store/bundle.go:104-122 | a hit or a non-NotExist read error without `pullRef` is returned with no pull and no change; otherwise exactly one pull of `TagNameOnly(ref)`; a pull error comes back wrapped with the reference and nothing changes; a pulled bundle is stored under `ref` as given and returned exactly when the store succeeds, and a failed store returns `Store`'s own wrapped error unchanged; after success `Read(ref)` gives the result; a bare reference always fails |
| `Store.CacheHitAfterStore` | internal/store/bundle.go:104-109 | after a successful `Store(ref, b)`, a lookup without `pullRef` returns `b` and makes no pull |
| `Store.ReadableIsListed` | internal/store/bundle.go:73-81 | a bundle `Read` finds under a storable reference sits in a file whose name ends with `.json`, so the walk decodes it, and it decodes back to that reference |
| `Store.BundleStore.Walk` | internal/store/bundle.go:68-91 | decodes only the regular files whose name ends with `.json` (`JsonFiles`), skipping directories and every other file; visits each such file at most once; every visited path decodes to the reference collected for it; it stops at the first decode failure, returning that error; it finishes without error exactly when every `.json` file decodes |
| `Store.BundleStore.List` | internal/store/bundle.go:66-98 | on success: the references of all `.json` files, the same multiset the walk collected, sorted by name; otherwise the first decode error; success exactly when every `.json` file decodes |
| `Store.SortByName` | internal/store/bundle.go:93-95 | sorts the array in place by name; the result is a permutation of the input |

## Left out

- Real I/O (`os.MkdirAll`, `ioutil.ReadFile`, `bundle.WriteFile`, `filepath.Walk`).
  - The directory is a map from file path to file, and directories are implied by the files below them.
  - Empty directories are not modelled. So an empty directory at a store path does not block `Store`
    in the model, and reading it gives NotExist instead of EISDIR.
  - Errors that `filepath.Walk` reports to its callback (an unreadable directory) are not modelled.
    Neither are symbolic links.
- Store.BundleStore.Walk: the walk order is left open (any order). `filepath.Walk` visits entries in
  lexical order per directory. The order matters only for which decode error is reported when
  several files fail, and for the order among equal names, which `sort.Slice` does not fix either.
- Store.BundleStore.Store: a failed write leaves the directory unchanged. A real `WriteFile` can
  fail after truncating or partly writing the file, and `MkdirAll` can leave new directories behind.
- JSON: a bundle is an opaque value, and a written bundle reads back as itself. Decoding failure is
  the `Garbage` file kind.
- `filepath.Join` is modelled as joining with `/`. `filepath.Clean` (collapsing `//`, `.` and `..`)
  and the Windows separator conversions `FromSlash`/`ToSlash` are not modelled.
- References.ParseNamed is structural only. It splits at the first `@` and at the last `:` not
  followed by `/`, and rejects empty parts. It does not check the registry grammar (lower-case
  components, allowed characters, lengths, digest formats) or that the name is canonical.
  - The round trip and collision freedom hold for every `Codec.Storable` reference that is tagged
    or digested but not both; one with both is filed and read back as its digest-only form
    (`Codec.DigestTakesPrecedence`). That takes more than structural unambiguity: `Tagged("a_b", "1")` is unambiguous, yet its path reads back
    as `Tagged("a:b", "1")`. The `Storable` references include every canonical, domain-qualified
    grammatical reference, as `reference.ParseNamed` returns them: a domain holds no `_`, a path
    component starts with a letter or digit (so it is never `_tags` or `_digests`), and tags and
    digests hold no `/`.
- `reference.TagNameOnly` is modelled on the datatype. The registry library's normalisation of
  names (`docker.io/library/…`) is not.
- The pull and the remote registry (`remotes.Pull`, `remotes.CreateResolver`, the configuration file,
  insecure registries, the logging context) are one function parameter. The call is logged in the
  ghost field `pulls`.
- Error messages are values (`Wrapped(op, ref, cause)`), not formatted text.
- Concurrency: the store takes no locks, and the model is sequential.
