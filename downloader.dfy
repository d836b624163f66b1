/** `Download.Do` and its helpers: probe gate, section plan, one ranged fetch per
    section into `tmp/section-<i>.tmp`, and the ordered merge into
    `exports/<TargetPath>`. The network is a parameter: `serve` answers a ranged
    request given its `Range` header value. */
module Downloader {

  import opened Wrappers
  import opened Text
  import opened Partition
  import opened Storage

  const TmpDir: string := "tmp"
  const ExportDir: string := "exports"

  /** The `Download` struct. Every method has a value receiver, so none of them
      can change the caller's copy. */
  datatype Download = Download(url: string, targetPath: string, totalSections: int)

  /** What the HEAD request produced: no response at all, or a status code and the
      outcome of reading `Content-Length` as an integer. */
  datatype Probe = ProbeFailed | Probed(status: int, contentLength: Option<int>)

  /** What a ranged GET produced: no response, or the `filename` parameter of
      `Content-Disposition` (None when the header does not parse) and the body
      (None when reading it fails). */
  datatype Reply = ReplyFailed | Reply(filename: Option<string>, body: Option<seq<byte>>)

  datatype Error =
    | RequestFailed
    | BadStatus(code: int)
    | BadLength
    | SectionFailed(index: nat)
    | BadDisposition(index: nat)
    | BodyFailed(index: nat)
    | Io(fault: Fault)

  /** The temporary file of section `i`. */
  function TempName(i: nat): string {
    TmpDir + "/section-" + NatToString(i) + ".tmp"
  }

  /** The file the sections are merged into. */
  function ExportPath(target: string): string {
    ExportDir + "/" + target
  }

  /** The `Range` header value of a section: `bytes=<start>-<end>`, both inclusive. */
  function RangeValue(s: Section): string {
    "bytes=" + IntToString(s.start) + "-" + IntToString(s.end)
  }

  /** A `bytes=<first>-<last>` range with both positions present, as a section;
      None for any other text. */
  function ParseRange(h: string): Option<Section> {
    if |h| < 6 || h[..6] != "bytes=" then None
    else
      var spec := h[6..];
      match IndexOf(spec, '-')
      case None => None
      case Some(k) =>
        match (ParseNat(spec[..k]), ParseNat(spec[k + 1..]))
        case (Some(a), Some(b)) => Some(Section(a, b))
        case _ => None
  }

  /** Distinct sections have distinct temporary files. */
  lemma TempNameInjective(i: nat, j: nat)
    ensures TempName(i) == TempName(j) <==> i == j
  {
    var pre, suf := TmpDir + "/section-", ".tmp";
    assert TempName(i) == pre + NatToString(i) + suf;
    assert TempName(j) == pre + NatToString(j) + suf;
    if TempName(i) == TempName(j) {
      var ti, tj := TempName(i), TempName(j);
      assert ti[|pre|..|ti| - |suf|] == NatToString(i);
      assert tj[|pre|..|tj| - |suf|] == NatToString(j);
      NatToStringInjective(i, j);
    }
  }

  /** No export path is the temporary file of a section. */
  lemma ExportIsNotTemp(target: string, i: nat)
    ensures ExportPath(target) != TempName(i)
  {
    assert ExportPath(target)[0] == 'e' && TempName(i)[0] == 't';
  }

  /** The text after `bytes=` in a section's header. */
  lemma RangeSpec(s: Section)
    ensures RangeValue(s)[..6] == "bytes=" && |RangeValue(s)| >= 6
    ensures RangeValue(s)[6..] == IntToString(s.start) + ['-'] + IntToString(s.end)
  {
    var a, b := IntToString(s.start), IntToString(s.end);
    assert RangeValue(s) == "bytes=" + (a + ['-'] + b);
  }

  /** With a non-negative start, the separator is found right after the start's digits. */
  lemma RangeSplit(s: Section)
    requires s.start >= 0
    ensures var spec := RangeValue(s)[6..];
      var a := IntToString(s.start);
      IndexOf(spec, '-') == Some(|a|) && spec[..|a|] == a && spec[|a| + 1..] == IntToString(s.end)
  {
    RangeSpec(s);
    var a, b := IntToString(s.start), IntToString(s.end);
    IndexOfSeparator(a, '-', b);
    var spec := a + ['-'] + b;
    assert spec[..|a|] == a && spec[|a| + 1..] == b;
  }

  /** The header of a section parses back to that section exactly when neither
      position is negative (a negative one prints with a `-` the grammar has no
      room for). */
  lemma RangeRoundTrip(s: Section)
    ensures ParseRange(RangeValue(s)) == Some(s) <==> s.start >= 0 && s.end >= 0
  {
    RangeSpec(s);
    var spec := RangeValue(s)[6..];
    if s.start >= 0 {
      RangeSplit(s);
      ParseNatToString(s.start);
      if s.end >= 0 {
        ParseNatToString(s.end);
      }
    } else {
      assert spec[0] == '-';
      assert IndexOf(spec, '-') == Some(0);
      assert spec[..0] == [];
    }
  }

  /** One `downloadSection` call against the disk: request the section's range,
      give up on a missing response, an unparsable `Content-Disposition` or an
      unreadable body, otherwise write the body to the section's temporary file. */
  function FetchSection(d: Disk, i: nat, s: Section, serve: string -> Reply): (Disk, Option<Error>) {
    match serve(RangeValue(s))
    case ReplyFailed => (d, Some(SectionFailed(i)))
    case Reply(name, body) =>
      if name.None? then (d, Some(BadDisposition(i)))
      else if body.None? then (d, Some(BodyFailed(i)))
      else
        var (d', f) := d.WriteFile(TempName(i), body.value);
        (d', if f.Some? then Some(Io(f.value)) else None)
  }

  /** The fetch phase from section `i` on, one section after another, stopping at
      the first failure. */
  function FetchFrom(d: Disk, secs: seq<Section>, i: nat, serve: string -> Reply): (Disk, Option<Error>)
    decreases |secs| - i
  {
    if i >= |secs| then (d, None)
    else
      var (d', e) := FetchSection(d, i, secs[i], serve);
      if e.Some? then (d', e) else FetchFrom(d', secs, i + 1, serve)
  }

  /** The merge loop from section `i` on: read `tmp/section-<i>.tmp`, append it to
      `out`, stop at the first read or write failure. */
  function MergeFrom(d: Disk, out: string, i: nat, n: nat): (Disk, Option<Error>)
    decreases n - i
  {
    if i >= n then (d, None)
    else
      match d.ReadFile(TempName(i))
      case None => (d, Some(Io(NotFound(TempName(i)))))
      case Some(b) =>
        var (d', f) := d.Append(out, b);
        if f.Some? then (d', Some(Io(f.value))) else MergeFrom(d', out, i + 1, n)
  }

  /** `mergeFiles`: open `exports/<target>` for appending, then merge sections `0..n-1`. */
  function Merge(d: Disk, target: string, n: nat): (Disk, Option<Error>) {
    var out := ExportPath(target);
    var (d', f) := d.OpenAppend(out);
    if f.Some? then (d', Some(Io(f.value))) else MergeFrom(d', out, 0, n)
  }

  /** `Download.Do`. */
  function Run(d: Disk, dl: Download, probe: Probe, serve: string -> Reply): (Disk, Option<Error>)
    requires dl.totalSections >= 1
  {
    match probe
    case ProbeFailed => (d, Some(RequestFailed))
    case Probed(status, length) =>
      if status > 299 then (d, Some(BadStatus(status)))
      else if length.None? then (d, Some(BadLength))
      else
        var (d', e) := FetchFrom(d, Layout(length.value, dl.totalSections), 0, serve);
        if e.Some? then (d', e) else Merge(d', dl.targetPath, dl.totalSections)
  }

  // ---------------------------------------------------------------------------
  // The imperative code, each method proved to follow the function above.

  method DownloadSection(store: Store, dl: Download, i: nat, s: Section, serve: string -> Reply)
    returns (err: Option<Error>)
    modifies store
    ensures (store.Snapshot(), err) == FetchSection(old(store.Snapshot()), i, s, serve)
  {
    var header := RangeValue(s);
    var reply := serve(header);
    if reply.ReplyFailed? {
      return Some(SectionFailed(i));
    }
    if reply.filename.None? {
      return Some(BadDisposition(i));
    }
    // The receiver is a copy: this assignment is lost when the call returns.
    var receiver := dl.(targetPath := reply.filename.value);
    if reply.body.None? {
      return Some(BodyFailed(i));
    }
    var f := store.WriteFile(TempName(i), reply.body.value);
    err := if f.Some? then Some(Io(f.value)) else None;
  }

  method MergeFiles(store: Store, dl: Download, sections: array<Section>) returns (err: Option<Error>)
    modifies store
    ensures (store.Snapshot(), err) == Merge(old(store.Snapshot()), dl.targetPath, sections.Length)
  {
    var out := ExportPath(dl.targetPath);
    var f := store.OpenAppend(out);
    if f.Some? {
      return Some(Io(f.value));
    }
    ghost var ready := store.Snapshot();
    var n := sections.Length;
    var i := 0;
    while i < n
      invariant 0 <= i <= n
      invariant MergeFrom(store.Snapshot(), out, i, n) == MergeFrom(ready, out, 0, n)
    {
      var b := store.ReadFile(TempName(i));
      if b.None? {
        return Some(Io(NotFound(TempName(i))));
      }
      f := store.Append(out, b.value);
      if f.Some? {
        return Some(Io(f.value));
      }
      i := i + 1;
    }
    err := None;
  }

  /** The goroutines of `Do`, one after another: the first failing section ends
      the download, as its panic ends the process. */
  method FetchAll(store: Store, dl: Download, sections: array<Section>, serve: string -> Reply)
    returns (err: Option<Error>)
    modifies store
    ensures (store.Snapshot(), err) == FetchFrom(old(store.Snapshot()), sections[..], 0, serve)
  {
    ghost var start := store.Snapshot();
    ghost var plan := sections[..];
    var i := 0;
    while i < sections.Length
      invariant 0 <= i <= sections.Length && sections[..] == plan
      invariant FetchFrom(store.Snapshot(), plan, i, serve) == FetchFrom(start, plan, 0, serve)
    {
      err := DownloadSection(store, dl, i, sections[i], serve);
      if err.Some? {
        return;
      }
      i := i + 1;
    }
    err := None;
  }

  method Do(store: Store, dl: Download, probe: Probe, serve: string -> Reply) returns (err: Option<Error>)
    requires dl.totalSections >= 1
    modifies store
    ensures (store.Snapshot(), err) == Run(old(store.Snapshot()), dl, probe, serve)
  {
    if probe.ProbeFailed? {
      return Some(RequestFailed);
    }
    if probe.status > 299 {
      return Some(BadStatus(probe.status));
    }
    if probe.contentLength.None? {
      return Some(BadLength);
    }
    var size := probe.contentLength.value;
    var sections := PlanSections(size, dl.totalSections);
    err := FetchAll(store, dl, sections, serve);
    if err.Some? {
      return;
    }
    err := MergeFiles(store, dl, sections);
  }
}
