# github-stars-cli in Dafny

A model of the core of `github-stars-cli`, a command-line tool that lists
the repositories a user has starred on GitHub. The `list` action:

1. reads the user's cached list from a key-value store;
2. on a miss, fetches pages 1, 2, 3, … of the starred list and stops at the
   first page whose `Link` header has no `rel="next"` entry;
3. saves the full list under the username;
4. keeps only the repositories whose lower-cased language is one of the
   requested languages;
5. prints one line per repository: the name padded to the longest name, a
   tab, and the description cut so that name and description fit in 200
   bytes (201 with the tab).

Modules (one file each):

- `Wrappers`: `Option` and `Result`.
- `Types`: the `Repo` record, and `Error`, an error string the program never
  inspects.
- `Text`: byte strings. It holds `Contains`, `Split` and `Join`, ASCII
  lower-casing, and the lemmas that relate them.
- `Link`: the `hasNext` rule for the `Link` header.
- `Storage`: the cache. It is a map plus the fault, if any, that a read or a
  write transaction reports.
- `Fetch`: one page fetch over an API oracle, and the pagination walk. The
  walk is given both as a recursive function and as the program's own loop.
- `Filter`: the language filter, as a function and as the program's nested
  loops.
- `Layout`: padding, truncation and the line format.
- `Retrieval`: `getStarredRepos` and the `list` action.

The network is an oracle `Api = nat -> Result<Response, Error>`. For a page
number it gives the decoded records and the raw `Link` header, or the error
of the request, the transport or the JSON decoding. The model itself
computes the continuation flag from the header. Strings are `seq<char>`, and
each `char` stands for one byte of a Go string. So lengths and slices are
byte lengths and byte slices, as with Go's `len` and `s[:n]`.

Notes on the code's behaviour:

- The continuation rule is the code's rule: cut the header at every `", "`
  and look for the text `rel="next"` in a piece. It is not the grammar of
  section 3 of RFC 8288. So `rel=next` (unquoted) and `rel="prev next"` do not
  count as a next page. The contract of `Link.HasNext` shows that the cutting
  makes no difference: the rule is the same as "the header contains
  `rel="next"`".
- Descriptions are cut at a byte offset, not at a character boundary.
- A longest name over 200 bytes makes the description slice bound negative,
  and Go panics on the first line. The model returns `Panicked` for this case.

## Model

| member | source | states |
|---|---|---|
| Text.Split | main.go:54 | splitting always yields at least one piece (the empty header yields one empty piece) and never more pieces than bytes plus one |
| Text.SplitJoin | main.go:54 | joining the pieces of a split with the separator gives back the header exactly |
| Text.SplitPartsFree | main.go:54 | no piece of a split contains the separator: the header is cut at every occurrence |
| Text.ContainsJoin | main.go:54-55 | when the separator shares no byte with the needle, the joined string contains the needle iff some piece does |
| Text.Lower | main.go:144 | ASCII lower-casing (of the flags here and of each language at main.go:99) keeps the length, maps each upper-case letter to its lower-case partner, leaves every other byte alone, and leaves no upper-case letter |
| Text.LowerIdempotent | main.go:142-145 | lower-casing an already lower-cased string changes nothing |
| Link.HasNext | main.go:53-59 | "some `, `-separated piece contains `rel="next"`" holds exactly when the whole header contains `rel="next"` |
| Link.ScanHasNext | main.go:53-59 | the scan that stops at the first matching piece returns true iff some piece contains `rel="next"` (both directions) |
| Link.EmptyHeaderHasNoNext | main.go:53-59 | an empty or missing `Link` header never announces a next page |
| Link.MiddlePageHeaderHasNext | main.go:53-59 | a header with a `rel="next"` entry followed by a `rel="last"` entry announces a next page |
| Storage.GetUserRepos | storage/storage.go:32-53 | a store fault is returned as the error; a missing key is a miss with no error; otherwise the stored list for exactly that key |
| Storage.SaveUserRepos | storage/storage.go:55-64 | a write fault is returned as the error; otherwise the key set gains exactly the username |
| Storage.SaveThenGet | storage/storage.go:32-64 | reading back a saved list for the same username gives exactly that list |
| Storage.SaveLeavesOthers | storage/storage.go:55-64 | a save leaves the read of every other username unchanged |
| Fetch.FetchPage | main.go:18-61 | a fetch error is passed up unchanged; otherwise the page's records are returned, with "has next" iff the header contains `rel="next"` |
| Fetch.FetchFrom | main.go:73-87 | the walk from page p requests a non-empty run of consecutive pages p, p+1, … and never goes past a page known to stop it |
| Fetch.FetchFromStopsAtFirstLastPage | main.go:73-87 | with k the first page that fails or has no next page, the walk requests exactly k pages. It returns page k's error, or the records of pages 1..k concatenated in page order |
| Fetch.FetchFromIgnoresBound | main.go:73-87 | the walk's outcome does not depend on which stopping page bounds it |
| Fetch.FetchAllPages | main.go:73-87 | the program's loop (start at page 1, append, break without a next page, return on error) computes exactly the walk |
| Filter.Keep | main.go:96-104 | the kept repositories are no more than the input, each comes from the input, and each has a requested language |
| Filter.FilterByLanguage | main.go:95-106 | with no requested language the list is returned unchanged |
| Filter.KeepIsSubsequence | main.go:95-106 | filtering yields an order-preserving subsequence of the input |
| Filter.KeepMultiplicity | main.go:97-104 | a wanted repository occurs in the result exactly as often as in the input, an unwanted one not at all, so duplicate languages never duplicate a repository |
| Filter.KeepMembership | main.go:97-104 | a repository is in the result iff it is in the input and its lower-cased language is one of the requested languages |
| Filter.KeepDependsOnlyOnLanguageSet | main.go:98-103 | only the set of requested languages matters: repeated or reordered languages give the same result |
| Filter.FilterRepos | main.go:95-106 | the program's nested loops with the inner `break` compute exactly the filter |
| Layout.MaxNameLen | main.go:151-157 | the column width is an upper bound of every name length and is attained by some name (0 for no repositories) |
| Layout.FormatRow | main.go:159-165 | the padded name has the column width, starts with the name and continues with spaces. The shown description is a prefix of length min(len(desc), 200 - width), and name plus description fit in 200. A width over 200 is the slice panic |
| Layout.RowsAt | main.go:158-166 | one row per repository, in order, each formatted at the common width; a panic iff the list is non-empty and the width exceeds 200 |
| Layout.LayoutRows | main.go:151-166 | every padded name has the length of the longest name and is the name followed by spaces, and every description is a prefix cut to min(len(desc), 200 - longest) |
| Layout.Render | main.go:165 | a printed line starts with the padded name, has the tab right after it, and ends with the shown description, with nothing else in between |
| Layout.RenderKeepsName | main.go:165 | a line whose padded name starts with the repository's name starts with that name |
| Layout.RenderedLine | main.go:151-165 | the line of repository i starts with its name, continues with spaces, has its tab at the column of the longest name, and ends with a prefix of its description of length min(len(desc), 200 - longest) |
| Layout.PrintedLines | main.go:151-166 | the lines of the `list` action: a panic iff the longest name exceeds 200; otherwise one line per repository, in order, each showing its repository as above |
| Layout.LinesAligned | main.go:158-165 | every printed line has its tab at the column of the longest name and is at most 201 bytes long |
| Layout.PaddingExample | main.go:151-165 | names of lengths 3, 7 and 1 are padded to 7, and a long description next to them is cut to 193 bytes |
| Retrieval.GetStarredRepos | main.go:64-109 | a read fault aborts with that fault and fetches nothing. A hit fetches nothing, saves nothing and returns the cached list filtered. A miss requests pages 1, 2, 3, …. A successful miss saves the list and returns it filtered. Any failure leaves the store unchanged |
| Retrieval.MissPath | main.go:72-93 | on a miss with k the first stopping page: exactly k pages are requested. Page k's error aborts with no save. A save error aborts. Otherwise the concatenation of pages 1..k is saved under exactly the username and returned filtered |
| Retrieval.SecondRetrievalHits | main.go:64-93 | after a successful fresh fetch, the next retrieval for the same user fetches nothing and returns the same records |
| Retrieval.LowerAll | main.go:142-145 | one result per `--language` flag, in order; each result is already lower-case and equals its flag up to ASCII case |
| Retrieval.CaseInsensitiveMatch | main.go:99 | with lower-cased flags, a repository is wanted iff some flag equals its language up to ASCII case |
| Retrieval.ListAction | main.go:139-169 | the action aborts iff retrieval fails, with the retrieval's own error, and leaves the store as retrieval does. It panics iff the longest retrieved name exceeds 200. Otherwise it prints one line per retrieved repository, in order, none longer than 201 bytes. Line i starts with repository i's name, continues with spaces, has its tab at the column of the longest name, and ends with a prefix of its description cut to min(len(desc), 200 - longest) bytes |
| Retrieval.OnePageScenario | main.go:64-93 | empty cache, one page of two records without a `Link` header: the result is those two records, only page 1 is requested, and the cache then holds them |
| Retrieval.CachedFilterScenario | main.go:64-106 | a cached Go, Rust, Go list filtered by `go` gives the two Go repositories and requests no page |
| Retrieval.ReadFaultScenario | main.go:65-68 | a cache read fault aborts with that fault and requests no page |

## Left out

- HTTP request construction, `client.Do`, reading the body and JSON decoding
  (main.go:19-45) are network I/O and library code. They are replaced by the
  `Api` oracle, which yields either decoded records with the `Link` header or
  an error.
- The embedded database behind the cache (storage/storage.go:17-30, the
  transactions, JSON marshalling) is library code. It is replaced by a map,
  with one optional read fault and one optional write fault per store. A
  failed write leaves the map unchanged. `Close` is process lifecycle and is
  not modelled.
- The `DEBUG` environment variable, logging, the rate-limit headers and the
  unimplemented wait (main.go:22-24, 47-52) are diagnostics with no effect on
  the result.
- `STORAGE_FILE` (storage/storage.go:18-21) chooses a file-backed or an
  in-memory store. The model takes the store's contents as an input, which
  covers both. An in-memory store starts empty, so a run without the
  variable always misses the cache and fetches.
- On a page error (main.go:76-78) `getStarredRepos` returns the records
  gathered so far along with the error, and on a save error (main.go:89-91)
  the full unfiltered list along with the error. `Result` keeps only the
  error, because the only caller discards the list when there is an error
  (main.go:147-149).
- Flag parsing, `fmt.Printf`, `log.Fatal` and `defer db.Close()`
  (main.go:111-178) are I/O and process lifecycle. `Retrieval.ListAction`
  returns the lines to print instead of printing them.
- Layout.Render: a modelled line has no terminating newline; the program
  prints each line followed by `\n` (main.go:165).
- Retrieval.GetStarredRepos: on a miss it requires a page `last` at which
  the walk stops (a failing page or one without a next page). The program
  has no bound and loops forever against an API that always announces a next
  page. That non-terminating run is not modelled.
- Text.Split: only non-empty separators are modelled. The program only splits
  on `", "`.
- Text.Lower: ASCII lower-casing stands for Go's Unicode `strings.ToLower`.
  Non-ASCII letters are left unchanged.
- Layout.FormatRow: a description cut in the middle of a multi-byte UTF-8
  character is not distinguished, because strings are modelled as plain
  byte sequences.
