/**
  The workspace as an abstract file system. Every path the queue uses is a file
  name inside one of five fixed directories of the workspace; a directory entry
  is a regular file with its text or something else (a sub-directory, a socket).
  `Disk` is the value; `FileSystem` is the mutable world the components act on,
  whose `Rename`, `Write` and `CreateDirectory` may fail for reasons outside the
  model (permissions, a full disk, a concurrent mover), which the model leaves
  to a nondeterministic choice.
 */
module Fs {
  import opened Options
  import opened Text

  /** `input/writing`, `input/ready`, `processing`, `output` and `failed`. */
  datatype Dir = Writing | Ready | Processing | Output | Failed

  datatype Path = Path(dir: Dir, name: string)

  datatype Entry = File(text: string) | Special

  datatype Disk = Disk(files: map<Path, Entry>, dirs: set<Dir>) {

    predicate IsRegular(p: Path) { p in files && files[p].File? }

    /** What reading `p` through an `ifstream` yields; None when it cannot be opened. */
    function Content(p: Path): (r: Option<string>)
      ensures r.Some? <==> IsRegular(p)
    {
      if IsRegular(p) then Some(files[p].text) else None
    }

    /**
      A rename cannot succeed when the source is missing or the target directory
      does not exist. A non-regular target is deliberately not excluded: such an
      entry may be a symbolic link or a pipe, which `rename` does replace, and
      the environment's outcome can still refuse the rename.
     */
    predicate CanRename(src: Path, dst: Path) { src in files && dst.dir in dirs }

    /** The effect of a successful `std::filesystem::rename`: the entry moves, replacing any target. */
    function Renamed(src: Path, dst: Path): (d: Disk)
      requires src in files
      ensures dst in d.files && d.files[dst] == files[src]
      ensures src != dst ==> src !in d.files
      ensures forall p :: p != src && p != dst ==> (p in d.files <==> p in files)
      ensures forall p :: p != src && p != dst && p in files ==> d.files[p] == files[p]
      ensures d.dirs == dirs
    {
      Disk((files - {src})[dst := files[src]], dirs)
    }

    /** An `ofstream` cannot be opened in a missing directory or over a non-regular entry. */
    predicate CanWrite(p: Path) { p.dir in dirs && !(p in files && files[p].Special?) }

    function Written(p: Path, text: string): (d: Disk)
      ensures d.Content(p) == Some(text)
      ensures forall q :: q != p ==> (q in d.files <==> q in files)
      ensures forall q :: q != p && q in files ==> d.files[q] == files[q]
      ensures d.dirs == dirs
    {
      Disk(files[p := File(text)], dirs)
    }

    function Removed(p: Path): (d: Disk)
      ensures p !in d.files
      ensures forall q :: q != p ==> (q in d.files <==> q in files)
      ensures forall q :: q != p && q in files ==> d.files[q] == files[q]
      ensures d.dirs == dirs
    {
      Disk(files - {p}, dirs)
    }

    /** The entries of the directories `ds`, and nothing else. */
    function Within(ds: set<Dir>): map<Path, Entry> {
      map p | p in files && p.dir in ds :: files[p]
    }
  }

  /** A rename attempt whose environment allows it exactly when `ok`. */
  function TryRename(d: Disk, src: Path, dst: Path, ok: bool): (r: (Disk, bool))
    ensures r.1 <==> ok && d.CanRename(src, dst)
    ensures r.0 == if r.1 then d.Renamed(src, dst) else d
  {
    if ok && d.CanRename(src, dst) then (d.Renamed(src, dst), true) else (d, false)
  }

  /** A write attempt whose environment allows it exactly when `ok`. */
  function TryWrite(d: Disk, p: Path, text: string, ok: bool): (r: (Disk, bool))
    ensures r.1 <==> ok && d.CanWrite(p)
    ensures r.0 == if r.1 then d.Written(p, text) else d
  {
    if ok && d.CanWrite(p) then (d.Written(p, text), true) else (d, false)
  }

  /** `p` is not in any of the directories `ds`. */
  predicate Outside(p: Path, ds: set<Dir>) { p.dir !in ds }

  lemma RenamedOutside(d: Disk, src: Path, dst: Path, ds: set<Dir>)
    requires src in d.files && Outside(src, ds) && Outside(dst, ds)
    ensures d.Renamed(src, dst).Within(ds) == d.Within(ds)
  {
    var r := d.Renamed(src, dst);
    assert forall p :: p in r.Within(ds) <==> p in d.Within(ds);
  }

  lemma WrittenOutside(d: Disk, p: Path, text: string, ds: set<Dir>)
    requires Outside(p, ds)
    ensures d.Written(p, text).Within(ds) == d.Within(ds)
  {
    var r := d.Written(p, text);
    assert forall q :: q in r.Within(ds) <==> q in d.Within(ds);
  }

  lemma RemovedOutside(d: Disk, p: Path, ds: set<Dir>)
    requires Outside(p, ds)
    ensures d.Removed(p).Within(ds) == d.Within(ds)
  {
    var r := d.Removed(p);
    assert forall q :: q in r.Within(ds) <==> q in d.Within(ds);
  }

  /** `d` and `e` agree on the entry at `p`, including its absence. */
  predicate SameAt(d: Disk, e: Disk, p: Path) {
    (p in d.files <==> p in e.files) && (p in d.files ==> d.files[p] == e.files[p])
  }

  /** Disks that agree on every path of the directories `ds` have the same entries there. */
  lemma WithinEqual(d: Disk, e: Disk, ds: set<Dir>)
    requires forall p: Path :: p.dir in ds ==> SameAt(d, e, p)
    ensures d.Within(ds) == e.Within(ds)
  {
    assert forall p :: p in d.Within(ds) <==> p in e.Within(ds);
  }

  /** The key of the one line a job's sidecar (`<id>.meta`) carries. */
  const EMAIL_KEY: string := "email="

  /** `path.extension() == ".txt"`: a leading dot alone does not start an extension. */
  predicate IsTxt(name: string) { |name| > 4 && EndsWith(name, ".txt") }

  /** `path.stem()` of a `.txt` name. */
  function Stem(name: string): string
    requires IsTxt(name)
  {
    name[..|name| - 4]
  }

  function TxtName(id: string): string { id + ".txt" }

  function MetaName(id: string): string { id + ".meta" }

  lemma TxtNameStem(id: string)
    requires id != []
    ensures IsTxt(TxtName(id)) && Stem(TxtName(id)) == id
  {
    assert TxtName(id)[|TxtName(id)| - 4..] == ".txt";
  }

  /** A sidecar name is never mistaken for a job's text file. */
  lemma MetaNameNotTxt(id: string)
    ensures !IsTxt(MetaName(id))
  {
    var m := MetaName(id);
    assert m[|m| - 1] == 'a';
  }

  /** The mutable file system. */
  class FileSystem {
    var disk: Disk

    constructor (initial: Disk)
      ensures disk == initial
    {
      disk := initial;
    }

    /** `std::filesystem::exists`. */
    function Exists(p: Path): bool
      reads this
    {
      p in disk.files
    }

    /** Read a whole file through an `ifstream`. */
    method Read(p: Path) returns (r: Option<string>)
      ensures r == disk.Content(p)
    {
      r := disk.Content(p);
    }

    method Write(p: Path, text: string) returns (ok: bool)
      modifies this
      ensures (disk, ok) == TryWrite(old(disk), p, text, ok)
    {
      if !disk.CanWrite(p) {
        return false;
      }
      ok := *;
      if ok {
        disk := disk.Written(p, text);
      }
    }

    /** `std::filesystem::rename`, atomic; `ok` is false where the source would throw. */
    method Rename(src: Path, dst: Path) returns (ok: bool)
      modifies this
      ensures (disk, ok) == TryRename(old(disk), src, dst, ok)
    {
      if !disk.CanRename(src, dst) {
        return false;
      }
      ok := *;
      if ok {
        disk := disk.Renamed(src, dst);
      }
    }

    /** `std::filesystem::remove`; removing a missing entry does nothing. */
    method Remove(p: Path)
      modifies this
      ensures disk == old(disk).Removed(p)
    {
      disk := disk.Removed(p);
    }

    /** `std::filesystem::create_directories`: succeeds at once when the directory exists. */
    method CreateDirectory(d: Dir) returns (ok: bool)
      modifies this
      ensures old(disk).dirs <= disk.dirs && disk.files == old(disk).files
      ensures ok <==> d in disk.dirs
      ensures disk.dirs == if ok then old(disk).dirs + {d} else old(disk).dirs
    {
      if d in disk.dirs {
        return true;
      }
      ok := *;
      if ok {
        disk := disk.(dirs := disk.dirs + {d});
      }
    }
  }
}
