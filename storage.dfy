/** The local filesystem as the downloader sees it: whole files by path, a number
    of free bytes, and the paths the process may not open for writing. */
module Storage {

  import opened Wrappers

  newtype byte = x: int | 0 <= x < 256

  /** Why a file operation failed. */
  datatype Fault = Denied(path: string) | NoSpace(path: string) | NotFound(path: string)

  datatype Disk = Disk(files: map<string, seq<byte>>, free: nat, denied: set<string>) {

    /** The bytes at `path`; a missing file reads as empty. */
    function Contents(path: string): seq<byte> {
      if path in files then files[path] else []
    }

    /** `ioutil.WriteFile`: open with create and truncate, then write all of `b`.
        When `b` does not fit, the file is left truncated. */
    function WriteFile(path: string, b: seq<byte>): (r: (Disk, Option<Fault>))
      ensures r.0.denied == denied
      ensures r.1.None? <==> path !in denied && |b| <= free + |Contents(path)|
      ensures r.1.None? ==> r.0.files == files[path := b]
      ensures r.1.Some? && path !in denied ==> r.0.files == files[path := []] && r.1 == Some(NoSpace(path))
      ensures path in denied ==> r == (this, Some(Denied(path)))
      ensures path !in denied ==> path in r.0.files
      ensures forall p :: p != path ==> (p in r.0.files <==> p in files) && r.0.Contents(p) == Contents(p)
    {
      if path in denied then (this, Some(Denied(path)))
      else
        var room := free + |Contents(path)|;
        if |b| <= room then (this.(files := files[path := b], free := room - |b|), None)
        else (this.(files := files[path := []], free := room), Some(NoSpace(path)))
    }

    /** `os.OpenFile` with create, write-only and append: an absent file is created
        empty, an existing one is kept as it is. */
    function OpenAppend(path: string): (r: (Disk, Option<Fault>))
      ensures r.1.None? <==> path !in denied
      ensures r.1.None? ==> path in r.0.files && r.0.Contents(path) == Contents(path)
      ensures r.1.Some? ==> r == (this, Some(Denied(path)))
      ensures forall p :: p != path ==> (p in r.0.files <==> p in files) && r.0.Contents(p) == Contents(p)
      ensures r.0.free == free && r.0.denied == denied
    {
      if path in denied then (this, Some(Denied(path)))
      else if path in files then (this, None)
      else (this.(files := files[path := []]), None)
    }

    /** A write through a handle opened for appending: `b` goes after the current
        end, or nothing is written when it does not fit. */
    function Append(path: string, b: seq<byte>): (r: (Disk, Option<Fault>))
      ensures r.1.None? <==> |b| <= free
      ensures r.1.None? ==> r.0 == this.(files := files[path := Contents(path) + b], free := free - |b|)
      ensures r.1.Some? ==> r == (this, Some(NoSpace(path)))
    {
      if |b| <= free then (this.(files := files[path := Contents(path) + b], free := free - |b|), None)
      else (this, Some(NoSpace(path)))
    }

    /** `ioutil.ReadFile`: the whole file, or nothing when it does not exist. */
    function ReadFile(path: string): (r: Option<seq<byte>>)
      ensures r.Some? <==> path in files
      ensures r.Some? ==> r.value == files[path]
    {
      if path in files then Some(files[path]) else None
    }
  }

  /** The mutable filesystem the downloader writes to. */
  class Store {
    var files: map<string, seq<byte>>
    var free: nat
    var denied: set<string>

    function Snapshot(): Disk
      reads this
    {
      Disk(files, free, denied)
    }

    constructor (d: Disk)
      ensures Snapshot() == d
    {
      files, free, denied := d.files, d.free, d.denied;
    }

    method WriteFile(path: string, b: seq<byte>) returns (err: Option<Fault>)
      modifies this
      ensures (Snapshot(), err) == old(Snapshot()).WriteFile(path, b)
    {
      if path in denied {
        return Some(Denied(path));
      }
      var room := free + |Snapshot().Contents(path)|;
      if |b| <= room {
        files, free := files[path := b], room - |b|;
        err := None;
      } else {
        files, free := files[path := []], room;
        err := Some(NoSpace(path));
      }
    }

    method OpenAppend(path: string) returns (err: Option<Fault>)
      modifies this
      ensures (Snapshot(), err) == old(Snapshot()).OpenAppend(path)
    {
      if path in denied {
        return Some(Denied(path));
      }
      if path !in files {
        files := files[path := []];
      }
      err := None;
    }

    method Append(path: string, b: seq<byte>) returns (err: Option<Fault>)
      modifies this
      ensures (Snapshot(), err) == old(Snapshot()).Append(path, b)
    {
      if |b| <= free {
        files, free := files[path := Snapshot().Contents(path) + b], free - |b|;
        err := None;
      } else {
        err := Some(NoSpace(path));
      }
    }

    method ReadFile(path: string) returns (r: Option<seq<byte>>)
      ensures r == Snapshot().ReadFile(path)
    {
      r := if path in files then Some(files[path]) else None;
    }
  }
}
