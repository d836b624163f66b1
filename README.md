# Range downloader: plan, fetch and reassemble

A Dafny model of the core of a parallel range downloader written in Go
(`main.go`). `Download.Do` sends a HEAD request and stops if the status
is above 299. It reads `Content-Length` as the byte count `size`. It then
splits `[0, size - 1]` into `TotalSections` inclusive ranges. For each
range it issues a GET with `Range: bytes=<start>-<end>` (byte-range form,
section 14.1.2 of RFC 9110) and stores the body in `tmp/section-<i>.tmp`.
Finally it appends those files, in index order, to `exports/<TargetPath>`,
which it opens in append mode without truncating.

Modules:

- `Wrappers`: the `Option` type used for Go's `(value, err)` pairs.
- `Text`: `%v` printing of integers (`NatToString`, `IntToString`) and
  the digit parser that inverts it.
- `Partition`: the section plan. `GoDiv` is Go's truncating division.
  `Layout` is the plan in closed form. `PlanSections` is the loop of
  `Do`, which fills an array in place, each start reading the previous
  end. The lemmas state the plan's shape and when it is a partition.
- `Storage`: the filesystem. `Disk` is a value: files by path, free bytes,
  and paths that cannot be opened for writing. Its functions give the
  meaning of `ioutil.WriteFile`, `os.OpenFile` with create and append, a
  write through that handle, and `ioutil.ReadFile`. `Store` is the mutable
  filesystem; its methods are proved to follow those functions.
- `Downloader`: `Download`, the HEAD outcome `Probe`, the GET outcome
  `Reply`, temp-file and export paths, and the `Range` value with its
  parser. `FetchSection`, `FetchFrom`, `MergeFrom`, `Merge` and `Run` give
  `downloadSection`, the fetch phase, `mergeFiles` and `Do` as functions.
  The methods `DownloadSection`, `FetchAll`, `MergeFiles` and `Do` are the
  imperative code, each proved equal to its function.
- `Pipeline`: what the download achieves. It covers the merge outcome,
  the fetch phase's writes, the filename quirk, and reassembly against a
  server that honours ranges.

The network is a parameter. `serve: string -> Reply` answers a GET given
its `Range` header value. The HEAD outcome is the `Probe` argument.

Where the intended design and the code differ, the model follows the code:

- Section `i` starts at `i * (size / N + 1)`, and every section but the
  last spans `size / N + 1` bytes. For 20 bytes in 4 sections this gives
  `[0,5],[6,11],[12,17],[18,19]`, not the `[6,10],[11,15],[16,20]` of the
  comment at main.go:64-65.
- N is never clamped to the byte count. When `(N-1)*(size/N + 1) > size - 1`,
  the last section has `start > end` (size 10 in 10 sections ends with
  `[18,9]`). `Partition.FitsIff` proves this. Clamping N to at most `size`
  would not be enough with this arithmetic: 10 bytes in 5 sections do not
  fit either, and section 3 is `[9,11]` (`Partition.Examples`).
- The filename in `Content-Disposition` is never used. `downloadSection`
  has a value receiver, so `d.TargetPath = params["filename"]` only changes
  a copy. The merge writes to the `TargetPath` the `Download` was built
  with. `Pipeline.FilenameIgnored` proves that the filename cannot change
  the outcome.
- A `Content-Disposition` that does not parse (including a missing one)
  makes the section fail. The status of a ranged GET is not checked.

## Model

| member | source | states |
|---|---|---|
| `Partition.GoDiv` | main.go:62 | `size / N` truncates toward zero. For `size >= 0` the quotient `q` has `q*N <= size < q*N + N`; for negative `size`, `size <= q*N <= 0` and `q*N < size + N` |
| `Partition.PlanSections` | main.go:60-85 | The loop fills a fresh array of exactly `N` sections. It is equal to the closed form `Layout(size, N)`, though each start is computed from the previous entry's end |
| `Partition.LayoutShape` | main.go:67-84 | The plan has `N` entries. Section 0 starts at 0, and each later one starts at the previous end + 1, so `start[i] = i*(size/N + 1)`. Every non-last section has `end - start = size/N`, and the last ends at `size - 1` |
| `Partition.FitsNeedsBytes` | main.go:60-62 | A plan whose first `N-1` sections end before `size` needs `size >= 1`, and then `size/N >= 0` |
| `Partition.FitsIff` | main.go:78-84 | Every section has `start <= end` if and only if `(N-1)*(size/N + 1) <= size - 1`. Otherwise the last section has `start > end` |
| `Partition.ChainCovers` | main.go:67-84 | Proper ranges, each starting one past the previous end, from `lo` to `hi`, are strictly ordered and cover exactly the bytes `lo..hi` |
| `Partition.LayoutPartitions` | main.go:60-85 | When the plan fits, every section is a proper range. Each byte of `[0, size-1]` lies in exactly one section, and no section holds a byte outside it |
| `Partition.LayoutBounds` | main.go:67-84 | When the plan fits, every section lies within `[0, size-1]` |
| `Partition.Examples` | main.go:64-65 | 20 bytes in 4 sections give `[0,5],[6,11],[12,17],[18,19]`. 10 bytes in 10 sections do not fit, and the last section is `[18,9]`. 10 bytes in 5 sections do not fit either: section 3 is `[9,11]` |
| `Text.NatToString` | main.go:177 | `%v` of a non-negative int is a non-empty string of decimal digits with no leading zero |
| `Text.IntToString` | main.go:150 | `%v` of an int is all digits exactly when it is non-negative, and then it is the decimal digits of the value. A negative value prints as `-` followed by the digits of its magnitude |
| `Text.ParseNatToString` | main.go:177 | Parsing the printed digits of `n` gives back `n` |
| `Text.NatToStringInjective` | main.go:201 | Two naturals print the same if and only if they are equal |
| `Downloader.TempNameInjective` | main.go:177 | `tmp/section-i.tmp` and `tmp/section-j.tmp` are the same name if and only if `i = j` |
| `Downloader.ExportIsNotTemp` | main.go:190 | The path string `exports/<target>` never equals the temp-file name of a section. Paths are compared as strings (see Left out) |
| `Downloader.RangeRoundTrip` | main.go:150 | `bytes=<start>-<end>` parses back to the same section if and only if both positions are non-negative |
| `Storage.Store.WriteFile` | main.go:177-181 | A denied path changes nothing. Otherwise the file is truncated and, when there is room, holds exactly the body; no other file changes |
| `Storage.Store.OpenAppend` | main.go:192-195 | A denied path is an error that changes nothing. Otherwise the export file exists afterwards with its previous contents kept |
| `Storage.Store.Append` | main.go:207-211 | When there is room, the bytes go after the file's current end; otherwise it is an error and nothing changes |
| `Storage.Store.ReadFile` | main.go:201-205 | Reads as `Disk.ReadFile` on the current state: the whole file when it exists, and nothing otherwise |
| `Downloader.DownloadSection` | main.go:142-184 | Requests the section's `Range` value. Missing response, unparsable disposition and unreadable body each fail before writing; otherwise the body is written to the section's temp file (`FetchSection`) |
| `Downloader.FetchAll` | main.go:89-113 | Fetches the sections in index order and stops at the first failure (`FetchFrom`) |
| `Downloader.MergeFiles` | main.go:186-217 | Opens the export file, then reads and appends temp files `0..N-1` in index order, returning the first error (`Merge`) |
| `Downloader.Do` | main.go:30-123 | Probe gate, `Content-Length`, plan, fetch phase, then merge, with the store ending as `Run` says |
| `Pipeline.ProbeGate` | main.go:48-50 | A HEAD status above 299 returns that status. Nothing is planned, fetched or written |
| `Pipeline.MergeFromOutcome` | main.go:199-214 | For some `k`, the merge appended sections `i..k-1`, in order, to the output and changed nothing else. It succeeds if and only if `k = n`. Otherwise section `k`'s file is missing (read error) or does not fit (write error) |
| `Pipeline.MergeOutcome` | main.go:186-217 | A denied export path is an error with nothing changed. Otherwise the output is its previous contents followed by sections `0..k-1`. The merge stops at the first failing section `k`, and no later section is read |
| `Pipeline.MergeSucceeds` | main.go:199-216 | With every temp file present and room for all of them, the merge returns no error |
| `Pipeline.FetchSectionWrites` | main.go:177 | A section's fetch changes no file other than its own temp file, and never changes which paths are write-protected |
| `Pipeline.FetchSectionStores` | main.go:160-181 | A section's fetch succeeds only if the response arrived, its disposition parsed and its body was read. Then its temp file holds exactly the body served for its range |
| `Pipeline.FetchFrame` | main.go:89-113 | The fetch phase changes no file other than the temp files of the sections it fetches |
| `Pipeline.FetchStores` | main.go:89-113 | When the fetch phase succeeds, every section was served and its temp file holds exactly its body, even though later sections write other files |
| `Pipeline.FetchSucceeds` | main.go:171-181 | If every reply arrives, every temp path is writable and the bodies fit in free space, the fetch phase succeeds. It uses at most that many bytes |
| `Pipeline.RunSucceeds` | main.go:89-121 | Suppose every section's response arrives with a parsable disposition and a readable body, and neither the temp files nor the export file is write-protected. If free space holds the bodies twice over, `Do` returns no error |
| `Pipeline.RunOutput` | main.go:30-123 | A successful `Do` passed the probe gate. `exports/<TargetPath>` holds its previous contents followed by the bodies served for sections `0..N-1`, in index order |
| `Pipeline.FetchFailureLeavesExport` | main.go:103-107 | In the sequential model, a failing section ends the download before the merge, so the export file is exactly as before. The concurrent source does not promise this (see Left out) |
| `Pipeline.FilenameIgnored` | main.go:160-169 | Two servers that differ only in the `Content-Disposition` filename lead to the same outcome and the same files |
| `Pipeline.Reassembles` | main.go:60-214 | Suppose the plan fits, the server answers each section's range with those bytes, the paths are writable and there is room for twice the resource. Then `Do` succeeds and the export file ends with exactly the resource |
| `Pipeline.RangeServerHonours` | main.go:150 | A server that honours `bytes=<first>-<last>` within the resource answers every section of a plan that fits with exactly that section's bytes |
| `Pipeline.RangeServerReassembles` | main.go:30-123 | Against such a server, `Do` reassembles the resource after the export file's previous contents |

## Left out

- HTTP transport is not modelled: building requests, `http.DefaultClient.Do` and the User-Agent header (main.go:34-46, 125-140, 152). The HEAD outcome is the `Probe` argument, and each GET is answered by the `serve` parameter.
- `strconv.Atoi` of `Content-Length` and `mime.ParseMediaType` of `Content-Disposition` are library parsers. Their outcomes are inputs: `Probe.contentLength`, and `Reply.filename` (None when the header does not parse).
- Goroutines, `sync.WaitGroup`, `panic` in the workers and the racy shared `err` are replaced by a sequential loop in index order. A failing section ends the download with an error rather than a process panic, and no later section is fetched. In the source, sections running at the same time may still have written their temp files.
- `Pipeline.FetchFailureLeavesExport`: holds of the sequential model only. In the source, every worker assigns to `Do`'s one `err` (main.go:40, 103). A worker that succeeds can overwrite a failure with `nil` before the check at main.go:105, so the failure is lost. `defer wg.Done()` also runs before a panic ends the process. Either way `mergeFiles` can run after a failed section. It creates the export file, and it appends whatever temp files exist, including stale ones from an earlier run.
- `Downloader.ExportIsNotTemp`: paths are map keys compared as strings, with no resolution of `..` or links. This lemma, and the merge results that rely on it (`Pipeline.RunOutput`, `Pipeline.Reassembles`, `Pipeline.RangeServerReassembles`), hold only for a `TargetPath` that stays inside `exports/`. A `TargetPath` of `../tmp/section-0.tmp` names section 0's temp file on disk, and the merge would then append to a file it also reads.
- Real file I/O is replaced by the `Disk` map with a free-byte count and a set of write-protected paths. A write that does not fit writes nothing, so Go's short writes are not modelled. Closing the handle (main.go:197) is not modelled.
- `Downloader.Do`: requires `TotalSections >= 1`. With 0, `size / d.TotalSections` divides by zero; with a negative count, `make` panics. Both happen after the probe, and the model does not cover them.
- Go's 64-bit `int` wrap-around is not modelled: sizes and offsets are unbounded integers.
- `main` is not modelled: the argument loop, the hard-coded URL, wall-clock timing, `log.Fatalf` and all progress printing.
- The output is not published atomically and N is not clamped. Neither is in the code, so the model has neither.
