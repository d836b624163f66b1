/** What `Download.Do` achieves, stated over the functions of module Downloader:
    the merge appends the temporary files in index order and stops at the first
    failure, the fetch phase leaves each section's body in its own temporary file,
    the `Content-Disposition` filename never matters, and against a server that
    honours byte ranges a plan that fits reassembles the resource exactly. */
module Pipeline {

  import opened Wrappers
  import opened Text
  import opened Partition
  import opened Storage
  import opened Downloader

  /** The bytes merged for section `j`: its temporary file, or nothing if it is missing. */
  function Payload(files: map<string, seq<byte>>, j: nat): seq<byte> {
    if TempName(j) in files then files[TempName(j)] else []
  }

  /** The payloads of sections `i..k-1`, in index order. */
  function Joined(files: map<string, seq<byte>>, i: nat, k: nat): seq<byte>
    decreases k - i
  {
    if i >= k then [] else Payload(files, i) + Joined(files, i + 1, k)
  }

  /** The body a reply carries, if any. */
  function Body(r: Reply): seq<byte> {
    if r.Reply? && r.body.Some? then r.body.value else []
  }

  /** The request for section `s` got a response whose disposition parsed and whose body was read. */
  ghost predicate Served(serve: string -> Reply, s: Section) {
    var r := serve(RangeValue(s));
    r.Reply? && r.filename.Some? && r.body.Some?
  }

  /** The bodies served for sections `i..`, in index order. */
  function Fetched(secs: seq<Section>, i: nat, serve: string -> Reply): seq<byte>
    decreases |secs| - i
  {
    if i >= |secs| then [] else Body(serve(RangeValue(secs[i]))) + Fetched(secs, i + 1, serve)
  }

  /** `p` is not the temporary file of any section from `i` on. */
  ghost predicate NotTempFrom(p: string, i: nat) {
    forall j: nat :: i <= j ==> p != TempName(j)
  }

  // ---------------------------------------------------------------------------
  // Probe gate

  /** A HEAD status above 299 ends `Do` with that status before any section is
      planned, fetched or written. */
  lemma ProbeGate(d: Disk, dl: Download, status: int, length: Option<int>, serve: string -> Reply)
    requires dl.totalSections >= 1 && status > 299
    ensures Run(d, dl, Probed(status, length), serve) == (d, Some(BadStatus(status)))
  {
  }

  // ---------------------------------------------------------------------------
  // Merge

  lemma {:induction false} JoinedFrame(f: map<string, seq<byte>>, g: map<string, seq<byte>>, i: nat, k: nat)
    requires forall j: nat :: i <= j < k ==> (TempName(j) in f <==> TempName(j) in g) && Payload(f, j) == Payload(g, j)
    ensures Joined(f, i, k) == Joined(g, i, k)
    decreases k - i
  {
    if i < k {
      JoinedFrame(f, g, i + 1, k);
    }
  }

  /** How far the merge from section `i` got: it appended sections `i..k-1` to
      `out` and nothing else changed; it succeeded exactly when `k == n`; otherwise
      section `k`'s file was missing or did not fit in the space left. */
  ghost predicate MergedUpTo(d: Disk, out: string, i: nat, k: nat, n: nat, d': Disk, e: Option<Error>)
    requires out in d.files
  {
    var joined := Joined(d.files, i, k);
    (forall j: nat :: i <= j < k ==> TempName(j) in d.files) &&
    |joined| <= d.free &&
    d'.files == d.files[out := d.files[out] + joined] &&
    d'.free == d.free - |joined| && d'.denied == d.denied &&
    (e.None? <==> k == n) &&
    (k < n && TempName(k) !in d.files ==> e == Some(Io(NotFound(TempName(k))))) &&
    (k < n && TempName(k) in d.files ==>
       |joined| + |d.files[TempName(k)]| > d.free && e == Some(Io(NoSpace(out))))
  }

  /** Appending section `i` and then merging `i+1..k-1` is merging `i..k-1`. */
  lemma MergeStep(d: Disk, out: string, i: nat, k: nat, n: nat, d': Disk, e: Option<Error>)
    requires i < k <= n && out in d.files && NotTempFrom(out, 0)
    requires TempName(i) in d.files && |d.files[TempName(i)]| <= d.free
    requires var b := d.files[TempName(i)];
      MergedUpTo(d.(files := d.files[out := d.files[out] + b], free := d.free - |b|), out, i + 1, k, n, d', e)
    ensures MergedUpTo(d, out, i, k, n, d', e)
  {
    var b := d.files[TempName(i)];
    var d1 := d.(files := d.files[out := d.files[out] + b], free := d.free - |b|);
    AppendJoined(d.files, out, i, k);
    forall j: nat | i < j < k ensures TempName(j) in d.files {
      assert TempName(j) in d1.files;
    }
    if k < n {
      assert out != TempName(k);
    }
  }

  /** Appending section `i`'s file and then sections `i+1..k-1` appends `i..k-1`. */
  lemma AppendJoined(f: map<string, seq<byte>>, out: string, i: nat, k: nat)
    requires i < k && out in f && TempName(i) in f && NotTempFrom(out, 0)
    ensures var f1 := f[out := f[out] + f[TempName(i)]];
      var rest := Joined(f1, i + 1, k);
      Joined(f, i, k) == f[TempName(i)] + rest &&
      f1[out := f1[out] + rest] == f[out := f[out] + Joined(f, i, k)]
  {
    var b := f[TempName(i)];
    var f1 := f[out := f[out] + b];
    JoinedFrame(f1, f, i + 1, k);
    var rest := Joined(f, i + 1, k);
    assert Joined(f, i, k) == b + rest;
    assert f1[out] + rest == f[out] + (b + rest);
  }

  lemma {:induction false} MergeFromOutcome(d: Disk, out: string, i: nat, n: nat)
    requires i <= n && out in d.files && NotTempFrom(out, 0)
    ensures exists k :: i <= k <= n && MergedUpTo(d, out, i, k, n, MergeFrom(d, out, i, n).0, MergeFrom(d, out, i, n).1)
    decreases n - i
  {
    var d', e := MergeFrom(d, out, i, n).0, MergeFrom(d, out, i, n).1;
    assert d.files[out] + [] == d.files[out];
    assert d.files[out := d.files[out]] == d.files;
    if i == n {
      assert MergedUpTo(d, out, i, i, n, d', e);
    } else if TempName(i) !in d.files {
      assert (d', e) == (d, Some(Io(NotFound(TempName(i)))));
      assert MergedUpTo(d, out, i, i, n, d', e);
    } else if |d.files[TempName(i)]| > d.free {
      assert (d', e) == (d, Some(Io(NoSpace(out))));
      assert MergedUpTo(d, out, i, i, n, d', e);
    } else {
      var b := d.files[TempName(i)];
      var d1 := d.(files := d.files[out := d.files[out] + b], free := d.free - |b|);
      assert d.Append(out, b) == (d1, None);
      assert (d', e) == MergeFrom(d1, out, i + 1, n);
      MergeFromOutcome(d1, out, i + 1, n);
      var k :| i + 1 <= k <= n && MergedUpTo(d1, out, i + 1, k, n, d', e);
      MergeStep(d, out, i, k, n, d', e);
    }
  }

  /** `mergeFiles` opens `exports/<target>` (an error, with nothing changed, if that
      is not allowed), then appends sections `0..k-1` after the file's previous
      contents, in index order, and either reaches `k == n` with no error or stops
      at the first section whose file is missing or does not fit. */
  lemma MergeOutcome(d: Disk, target: string, n: nat)
    ensures var (d', e) := Merge(d, target, n);
      var out := ExportPath(target);
      (out in d.denied ==> d' == d && e == Some(Io(Denied(out)))) &&
      (out !in d.denied ==>
         var ready := d.(files := d.files[out := d.Contents(out)]);
         exists k :: 0 <= k <= n && MergedUpTo(ready, out, 0, k, n, d', e))
  {
    var out := ExportPath(target);
    forall j: nat ensures out != TempName(j) {
      ExportIsNotTemp(target, j);
    }
    if out !in d.denied {
      var ready := d.(files := d.files[out := d.Contents(out)]);
      if out in d.files {
        assert d.files[out := d.files[out]] == d.files;
      }
      assert d.OpenAppend(out) == (ready, None);
      assert Merge(d, target, n) == MergeFrom(ready, out, 0, n);
      MergeFromOutcome(ready, out, 0, n);
    }
  }

  /** With every section file present and room for all of them, the merge succeeds. */
  lemma {:induction false} MergeSucceeds(d: Disk, out: string, i: nat, n: nat)
    requires i <= n && out in d.files && NotTempFrom(out, 0)
    requires forall j: nat :: i <= j < n ==> TempName(j) in d.files
    requires |Joined(d.files, i, n)| <= d.free
    ensures MergeFrom(d, out, i, n).1.None?
    decreases n - i
  {
    if i < n {
      var b := d.files[TempName(i)];
      var d1 := d.Append(out, b).0;
      JoinedFrame(d1.files, d.files, i + 1, n);
      MergeSucceeds(d1, out, i + 1, n);
    }
  }

  // ---------------------------------------------------------------------------
  // Fetch phase

  /** One section's fetch writes at most its own temporary file. */
  lemma FetchSectionWrites(d: Disk, i: nat, s: Section, serve: string -> Reply)
    ensures var d1 := FetchSection(d, i, s, serve).0;
      d1.denied == d.denied &&
      forall p :: p != TempName(i) ==> (p in d1.files <==> p in d.files) && d1.Contents(p) == d.Contents(p)
  {
  }

  /** When one section's fetch succeeds, the section was served and its temporary
      file holds the body served for its range. */
  lemma FetchSectionStores(d: Disk, i: nat, s: Section, serve: string -> Reply)
    ensures var (d1, e1) := FetchSection(d, i, s, serve);
      e1.None? ==> Served(serve, s) && TempName(i) in d1.files && d1.files[TempName(i)] == Body(serve(RangeValue(s)))
  {
  }

  /** The fetch phase from section `i` on leaves a path that is not the temporary
      file of one of those sections as it was. */
  lemma {:induction false} FetchKeeps(d: Disk, secs: seq<Section>, i: nat, serve: string -> Reply, p: string)
    requires NotTempFrom(p, i)
    ensures var d' := FetchFrom(d, secs, i, serve).0;
      (p in d'.files <==> p in d.files) && d'.Contents(p) == d.Contents(p)
    decreases |secs| - i
  {
    if i < |secs| {
      var d1, e1 := FetchSection(d, i, secs[i], serve).0, FetchSection(d, i, secs[i], serve).1;
      FetchSectionWrites(d, i, secs[i], serve);
      assert p != TempName(i);
      if e1.None? {
        assert FetchFrom(d, secs, i, serve) == FetchFrom(d1, secs, i + 1, serve);
        FetchKeeps(d1, secs, i + 1, serve, p);
      }
    }
  }

  /** The fetch phase never changes which paths are write-protected. */
  lemma {:induction false} FetchDenied(d: Disk, secs: seq<Section>, i: nat, serve: string -> Reply)
    ensures FetchFrom(d, secs, i, serve).0.denied == d.denied
    decreases |secs| - i
  {
    if i < |secs| {
      var d1, e1 := FetchSection(d, i, secs[i], serve).0, FetchSection(d, i, secs[i], serve).1;
      assert d1.denied == d.denied;
      if e1.None? {
        assert FetchFrom(d, secs, i, serve) == FetchFrom(d1, secs, i + 1, serve);
        FetchDenied(d1, secs, i + 1, serve);
      } else {
        assert FetchFrom(d, secs, i, serve) == (d1, e1);
      }
    }
  }

  /** The fetch phase from section `i` on writes only temporary files of those sections. */
  lemma FetchFrame(d: Disk, secs: seq<Section>, i: nat, serve: string -> Reply)
    ensures var d' := FetchFrom(d, secs, i, serve).0;
      d'.denied == d.denied &&
      forall p :: NotTempFrom(p, i) ==> (p in d'.files <==> p in d.files) && d'.Contents(p) == d.Contents(p)
  {
    FetchDenied(d, secs, i, serve);
    forall p | NotTempFrom(p, i)
      ensures var d' := FetchFrom(d, secs, i, serve).0;
        (p in d'.files <==> p in d.files) && d'.Contents(p) == d.Contents(p)
    {
      FetchKeeps(d, secs, i, serve, p);
    }
  }

  /** When the fetch phase from section `i` on succeeds, section `j` was served
      and its temporary file holds exactly the body served for its range. */
  lemma {:induction false} FetchStoresAt(d: Disk, secs: seq<Section>, i: nat, serve: string -> Reply, j: nat)
    requires i <= j < |secs| && FetchFrom(d, secs, i, serve).1.None?
    ensures var d' := FetchFrom(d, secs, i, serve).0;
      Served(serve, secs[j]) && TempName(j) in d'.files &&
      d'.files[TempName(j)] == Body(serve(RangeValue(secs[j])))
    decreases |secs| - i
  {
    var d1, e1 := FetchSection(d, i, secs[i], serve).0, FetchSection(d, i, secs[i], serve).1;
    assert e1.None? && FetchFrom(d, secs, i, serve) == FetchFrom(d1, secs, i + 1, serve);
    if j == i {
      FetchSectionStores(d, i, secs[i], serve);
      var t := TempName(i);
      forall k: nat | i + 1 <= k ensures t != TempName(k) {
        TempNameInjective(i, k);
      }
      FetchKeeps(d1, secs, i + 1, serve, t);
    } else {
      FetchStoresAt(d1, secs, i + 1, serve, j);
    }
  }

  /** When the fetch phase succeeds, every section from `i` on was served and its
      temporary file holds exactly the body served for its range. */
  lemma FetchStores(d: Disk, secs: seq<Section>, i: nat, serve: string -> Reply)
    ensures var d' := FetchFrom(d, secs, i, serve).0;
      FetchFrom(d, secs, i, serve).1.None? ==> forall j :: i <= j < |secs| ==>
        Served(serve, secs[j]) && TempName(j) in d'.files &&
        d'.files[TempName(j)] == Body(serve(RangeValue(secs[j])))
  {
    if FetchFrom(d, secs, i, serve).1.None? {
      forall j | i <= j < |secs|
        ensures var d' := FetchFrom(d, secs, i, serve).0;
          Served(serve, secs[j]) && TempName(j) in d'.files &&
          d'.files[TempName(j)] == Body(serve(RangeValue(secs[j])))
      {
        FetchStoresAt(d, secs, i, serve, j);
      }
    }
  }

  /** A fetch phase in which every section is served, may write its temporary file,
      and the bodies fit in the free space, succeeds and uses at most that much space. */
  lemma {:induction false} FetchSucceeds(d: Disk, secs: seq<Section>, i: nat, serve: string -> Reply)
    requires forall j :: i <= j < |secs| ==> Served(serve, secs[j]) && TempName(j) !in d.denied
    requires |Fetched(secs, i, serve)| <= d.free
    ensures FetchFrom(d, secs, i, serve).1.None?
    ensures FetchFrom(d, secs, i, serve).0.free >= d.free - |Fetched(secs, i, serve)|
    decreases |secs| - i
  {
    if i < |secs| {
      var d1 := FetchSection(d, i, secs[i], serve).0;
      FetchSucceeds(d1, secs, i + 1, serve);
    }
  }

  lemma {:induction false} JoinedFetched(files: map<string, seq<byte>>, secs: seq<Section>, i: nat, serve: string -> Reply)
    requires forall j :: i <= j < |secs| ==>
      TempName(j) in files && files[TempName(j)] == Body(serve(RangeValue(secs[j])))
    ensures Joined(files, i, |secs|) == Fetched(secs, i, serve)
    decreases |secs| - i
  {
    if i < |secs| {
      JoinedFetched(files, secs, i + 1, serve);
    }
  }

  // ---------------------------------------------------------------------------
  // The whole download

  /** When `Do` succeeds, the probe passed and `exports/<TargetPath>` (the path the
      `Download` was built with) holds its previous contents followed by the bodies
      served for sections `0..N-1`, in index order. */
  lemma RunOutput(d: Disk, dl: Download, probe: Probe, serve: string -> Reply)
    requires dl.totalSections >= 1
    ensures var (d', e) := Run(d, dl, probe, serve);
      e.None? ==>
        probe.Probed? && probe.status <= 299 && probe.contentLength.Some? &&
        var out := ExportPath(dl.targetPath);
        out in d'.files &&
        d'.files[out] == d.Contents(out) + Fetched(Layout(probe.contentLength.value, dl.totalSections), 0, serve)
  {
    var (d', e) := Run(d, dl, probe, serve);
    if e.None? {
      var n := dl.totalSections;
      var secs := Layout(probe.contentLength.value, n);
      var out := ExportPath(dl.targetPath);
      FetchStores(d, secs, 0, serve);
      FetchFrame(d, secs, 0, serve);
      var d1 := FetchFrom(d, secs, 0, serve).0;
      forall j: nat ensures out != TempName(j) {
        ExportIsNotTemp(dl.targetPath, j);
      }
      MergeOutcome(d1, dl.targetPath, n);
      var ready := d1.(files := d1.files[out := d1.Contents(out)]);
      var k :| 0 <= k <= n && MergedUpTo(ready, out, 0, k, n, d', e);
      JoinedFetched(ready.files, secs, 0, serve);
    }
  }

  /** In the sequential model, a section that fails to download ends `Do` before
      the merge: the export file is exactly as it was. The concurrent code does
      not promise this: its workers share one `err`, so a failure can be
      overwritten and the merge can still run. */
  lemma FetchFailureLeavesExport(d: Disk, dl: Download, status: int, size: int, serve: string -> Reply)
    requires dl.totalSections >= 1 && status <= 299
    requires FetchFrom(d, Layout(size, dl.totalSections), 0, serve).1.Some?
    ensures var (d', e) := Run(d, dl, Probed(status, Some(size)), serve);
      var out := ExportPath(dl.targetPath);
      e.Some? && (out in d'.files <==> out in d.files) && d'.Contents(out) == d.Contents(out)
  {
    var out := ExportPath(dl.targetPath);
    forall j: nat ensures out != TempName(j) {
      ExportIsNotTemp(dl.targetPath, j);
    }
    FetchFrame(d, Layout(size, dl.totalSections), 0, serve);
  }

  /** Replies that differ only in the `Content-Disposition` filename. */
  ghost predicate Alike(r1: Reply, r2: Reply) {
    (r1.ReplyFailed? && r2.ReplyFailed?) ||
    (r1.Reply? && r2.Reply? && r1.filename.Some? == r2.filename.Some? && r1.body == r2.body)
  }

  lemma {:induction false} FetchIgnoresFilename(d: Disk, secs: seq<Section>, i: nat, s1: string -> Reply, s2: string -> Reply)
    requires forall h :: Alike(s1(h), s2(h))
    ensures FetchFrom(d, secs, i, s1) == FetchFrom(d, secs, i, s2)
    decreases |secs| - i
  {
    if i < |secs| {
      assert Alike(s1(RangeValue(secs[i])), s2(RangeValue(secs[i])));
      var d1 := FetchSection(d, i, secs[i], s1).0;
      FetchIgnoresFilename(d1, secs, i + 1, s1, s2);
    }
  }

  /** `downloadSection` assigns the filename to its own copy of the receiver, so
      which filename the server sends never changes what `Do` does: only whether
      the header parses matters. */
  lemma FilenameIgnored(d: Disk, dl: Download, probe: Probe, s1: string -> Reply, s2: string -> Reply)
    requires dl.totalSections >= 1
    requires forall h :: Alike(s1(h), s2(h))
    ensures Run(d, dl, probe, s1) == Run(d, dl, probe, s2)
  {
    if probe.Probed? && probe.contentLength.Some? {
      FetchIgnoresFilename(d, Layout(probe.contentLength.value, dl.totalSections), 0, s1, s2);
    }
  }

  /** `serve` answers the range request of section `s` with exactly that
      section's bytes of `r`. */
  ghost predicate HonestFor(serve: string -> Reply, r: seq<byte>, s: Section) {
    0 <= s.start <= s.end < |r| &&
    var reply := serve(RangeValue(s));
    reply.Reply? && reply.filename.Some? && reply.body == Some(r[s.start..s.end + 1])
  }

  /** `serve` answers the range request of every section of `secs` with exactly
      that section's bytes of `r`. */
  ghost predicate HonoursRanges(serve: string -> Reply, r: seq<byte>, secs: seq<Section>) {
    forall j :: 0 <= j < |secs| ==> HonestFor(serve, r, secs[j])
  }

  lemma SliceSplit(r: seq<byte>, a: int, b: int)
    requires 0 <= a <= b <= |r|
    ensures r[a..] == r[a..b] + r[b..]
  {
  }

  /** What an honest server sends for section `j`: that section's bytes. */
  lemma HonestAt(serve: string -> Reply, r: seq<byte>, secs: seq<Section>, j: nat)
    requires HonoursRanges(serve, r, secs) && j < |secs|
    ensures 0 <= secs[j].start <= secs[j].end < |r|
    ensures Body(serve(RangeValue(secs[j]))) == r[secs[j].start..secs[j].end + 1]
  {
  }

  /** From section `i` on, each section is a proper range inside `r`, starts one
      past the end of the one before it, and the last one ends at the end of `r`. */
  ghost predicate LinkedFrom(secs: seq<Section>, r: seq<byte>, i: nat)
    decreases |secs| - i
  {
    i < |secs| ==>
      0 <= secs[i].start <= secs[i].end < |r| &&
      (if i + 1 < |secs| then secs[i + 1].start == secs[i].end + 1 else secs[i].end == |r| - 1) &&
      LinkedFrom(secs, r, i + 1)
  }

  /** The bytes of `r` that sections `i..` name, in index order. */
  ghost function Slices(r: seq<byte>, secs: seq<Section>, i: nat): seq<byte>
    requires LinkedFrom(secs, r, i)
    decreases |secs| - i
  {
    if i >= |secs| then [] else r[secs[i].start..secs[i].end + 1] + Slices(r, secs, i + 1)
  }

  /** A chain of proper ranges inside `r` that ends at the end of `r` is linked. */
  lemma {:induction false} ChainLinked(secs: seq<Section>, r: seq<byte>, i: nat)
    requires |secs| >= 1 && Chained(secs) && secs[|secs| - 1].end == |r| - 1
    requires forall j :: 0 <= j < |secs| ==> 0 <= secs[j].start <= secs[j].end < |r|
    ensures LinkedFrom(secs, r, i)
    decreases |secs| - i
  {
    if i < |secs| {
      ChainLinked(secs, r, i + 1);
      if i + 1 < |secs| {
        assert secs[i + 1].start == secs[i].end + 1;
      }
    }
  }

  /** An honest server's bodies are the sections' slices. */
  lemma {:induction false} HonestSlices(r: seq<byte>, secs: seq<Section>, i: nat, serve: string -> Reply)
    requires HonoursRanges(serve, r, secs) && LinkedFrom(secs, r, i)
    ensures Fetched(secs, i, serve) == Slices(r, secs, i)
    decreases |secs| - i
  {
    if i < |secs| {
      HonestAt(serve, r, secs, i);
      HonestSlices(r, secs, i + 1, serve);
    }
  }

  /** Linked slices concatenate to the tail of `r`. */
  lemma {:induction false} LinkedSlices(r: seq<byte>, secs: seq<Section>, i: nat)
    requires i < |secs| && LinkedFrom(secs, r, i)
    ensures Slices(r, secs, i) == r[secs[i].start..]
    decreases |secs| - i
  {
    var s := secs[i];
    var here := r[s.start..s.end + 1];
    assert Slices(r, secs, i) == here + Slices(r, secs, i + 1);
    SliceSplit(r, s.start, s.end + 1);
    if i + 1 < |secs| {
      LinkedSlices(r, secs, i + 1);
    } else {
      assert Slices(r, secs, i + 1) == [] && r[s.end + 1..] == [];
    }
  }

  lemma HonestFetched(r: seq<byte>, secs: seq<Section>, serve: string -> Reply)
    requires |secs| >= 1 && Chained(secs) && secs[|secs| - 1].end == |r| - 1
    requires HonoursRanges(serve, r, secs)
    ensures Fetched(secs, 0, serve) == r[secs[0].start..]
  {
    forall j | 0 <= j < |secs| ensures 0 <= secs[j].start <= secs[j].end < |r| {
      HonestAt(serve, r, secs, j);
    }
    ChainLinked(secs, r, 0);
    HonestSlices(r, secs, 0, serve);
    LinkedSlices(r, secs, 0);
  }

  /** When every section is served, no temporary file or the export file is
      write-protected, and there is room for the bodies twice over (once in the
      temporary files, once in the output), `Do` succeeds. */
  lemma RunSucceeds(d: Disk, dl: Download, status: int, size: int, serve: string -> Reply)
    requires dl.totalSections >= 1 && status <= 299
    requires forall j :: 0 <= j < dl.totalSections ==> Served(serve, Layout(size, dl.totalSections)[j])
    requires ExportPath(dl.targetPath) !in d.denied
    requires forall j :: 0 <= j < dl.totalSections ==> TempName(j) !in d.denied
    requires 2 * |Fetched(Layout(size, dl.totalSections), 0, serve)| <= d.free
    ensures Run(d, dl, Probed(status, Some(size)), serve).1.None?
  {
    var n := dl.totalSections;
    var secs := Layout(size, n);
    var out := ExportPath(dl.targetPath);
    FetchSucceeds(d, secs, 0, serve);
    FetchStores(d, secs, 0, serve);
    FetchDenied(d, secs, 0, serve);
    var d1 := FetchFrom(d, secs, 0, serve).0;
    forall j: nat ensures out != TempName(j) {
      ExportIsNotTemp(dl.targetPath, j);
    }
    var ready := d1.OpenAppend(out).0;
    assert Run(d, dl, Probed(status, Some(size)), serve) == MergeFrom(ready, out, 0, n);
    JoinedFetched(ready.files, secs, 0, serve);
    MergeSucceeds(ready, out, 0, n);
  }

  /** When the plan fits and the server answers every section's range with those
      bytes of the resource, there is room for the temporary files and the output,
      and nothing needed is write-protected, `Do` succeeds and
      `exports/<TargetPath>` ends with exactly the resource. */
  lemma Reassembles(d: Disk, dl: Download, status: int, r: seq<byte>, serve: string -> Reply)
    requires dl.totalSections >= 1 && status <= 299 && Fits(|r|, dl.totalSections)
    requires HonoursRanges(serve, r, Layout(|r|, dl.totalSections))
    requires ExportPath(dl.targetPath) !in d.denied
    requires forall j :: 0 <= j < dl.totalSections ==> TempName(j) !in d.denied
    requires d.free >= 2 * |r|
    ensures var (d', e) := Run(d, dl, Probed(status, Some(|r|)), serve);
      e.None? && ExportPath(dl.targetPath) in d'.files &&
      d'.files[ExportPath(dl.targetPath)] == d.Contents(ExportPath(dl.targetPath)) + r
  {
    var n := dl.totalSections;
    var secs := Layout(|r|, n);
    LayoutShape(|r|, n);
    HonestFetched(r, secs, serve);
    assert Fetched(secs, 0, serve) == r;
    forall j | 0 <= j < n ensures Served(serve, secs[j]) {
      HonestAt(serve, r, secs, j);
    }
    RunSucceeds(d, dl, status, |r|, serve);
    RunOutput(d, dl, Probed(status, Some(|r|)), serve);
  }

  /** A server that honours `bytes=<first>-<last>` within the resource and answers
      any other request with the whole resource, sending filename `name`. */
  function RangeServer(r: seq<byte>, name: string): string -> Reply {
    h =>
      var p := ParseRange(h);
      if p.Some? && 0 <= p.value.start <= p.value.end < |r| then
        Reply(Some(name), Some(r[p.value.start..p.value.end + 1]))
      else Reply(Some(name), Some(r))
  }

  /** `RangeServer` honours the range of every section of a plan that fits. */
  lemma RangeServerHonours(r: seq<byte>, name: string, n: int)
    requires n >= 1 && Fits(|r|, n)
    ensures HonoursRanges(RangeServer(r, name), r, Layout(|r|, n))
  {
    var secs := Layout(|r|, n);
    forall j | 0 <= j < n ensures HonestFor(RangeServer(r, name), r, secs[j]) {
      LayoutBounds(|r|, n, j);
      RangeServerAnswers(r, name, secs[j]);
    }
  }

  /** `RangeServer` answers the header of a section inside the resource with its bytes. */
  lemma RangeServerAnswers(r: seq<byte>, name: string, s: Section)
    requires 0 <= s.start <= s.end < |r|
    ensures RangeServer(r, name)(RangeValue(s)) == Reply(Some(name), Some(r[s.start..s.end + 1]))
    ensures HonestFor(RangeServer(r, name), r, s)
  {
    RangeRoundTrip(s);
  }

  /** `RangeServer` serves every plan that fits, so against it `Do` reassembles the resource. */
  lemma RangeServerReassembles(d: Disk, dl: Download, status: int, r: seq<byte>, name: string)
    requires dl.totalSections >= 1 && status <= 299 && Fits(|r|, dl.totalSections)
    requires ExportPath(dl.targetPath) !in d.denied
    requires forall j :: 0 <= j < dl.totalSections ==> TempName(j) !in d.denied
    requires d.free >= 2 * |r|
    ensures var (d', e) := Run(d, dl, Probed(status, Some(|r|)), RangeServer(r, name));
      e.None? && ExportPath(dl.targetPath) in d'.files &&
      d'.files[ExportPath(dl.targetPath)] == d.Contents(ExportPath(dl.targetPath)) + r
  {
    RangeServerHonours(r, name, dl.totalSections);
    Reassembles(d, dl, status, r, RangeServer(r, name));
  }
}
