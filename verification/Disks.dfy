/**
 * The files, as a map from path to text, and the paths that cannot be read or
 * written. The empty path never can.
 */
module Disks {
  import opened Bytes
  import opened GapModel

  datatype Disk = Disk(files: map<Text, Text>, unreadable: set<Text>, unwritable: set<Text>) {
    /** The path can be opened for reading. */
    predicate Readable(path: Text) {
      path != [] && path in files && path !in unreadable
    }

    /** The path can be opened for writing, which creates a missing file. */
    predicate Writable(path: Text) {
      path != [] && path !in unwritable
    }

    /** What a load of the path gives. */
    function Holds(path: Text): Text {
      if Readable(path) then files[path] else []
    }
  }

  /**
   * `load_file`: a path that cannot be read is opened for writing instead. That
   * creates a missing file, and empties one that is there.
   */
  function Load(d: Disk, path: Text): (r: (Disk, Gap))
    ensures r.1.Valid() && r.1.start == 0 && r.1.Content() == d.Holds(path)
    ensures r.0.files - {path} == d.files - {path} && SameRights(r.0, d)
    ensures d.Writable(path) ==> path in r.0.files && r.0.files[path] == r.1.Content()
    ensures d.Readable(path) || !d.Writable(path) ==> r.0 == d
  {
    if d.Readable(path) then (d, Loaded(d.files[path]))
    else if d.Writable(path) then (d.(files := d.files[path := []]), Loaded([]))
    else (d, Loaded([]))
  }

  /** `save_file`: nothing happens when the path cannot be opened. */
  function Save(d: Disk, path: Text, text: Text): Disk {
    if d.Writable(path) then d.(files := d.files[path := text]) else d
  }

  /** A path without the right, or without a name, is neither written nor read. */
  lemma RightsMatter(d: Disk, path: Text, text: Text)
    ensures path == [] || path in d.unwritable ==> Save(d, path, text) == d && Load(d, path).0 == d
    ensures path != [] && path !in d.unwritable ==> Save(d, path, text).files == d.files[path := text]
    ensures path == [] || path in d.unreadable || path !in d.files ==> d.Holds(path) == []
    ensures path != [] && path !in d.unreadable && path in d.files ==> d.Holds(path) == d.files[path]
  {
  }

  ghost predicate SameRights(a: Disk, b: Disk) {
    a.unreadable == b.unreadable && a.unwritable == b.unwritable
  }
}
