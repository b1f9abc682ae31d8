/** The src/ writer (RezRxtDbWriteMgr, RezRxtDbWriter). The write manager
    extends the python/ read manager, so records go under that reader's
    layout root/"context"/c/"name"/n/"timestamp"/t. Writing a record creates
    its timestamp directory and nothing more. */
module Writer {
  import opened Errors
  import opened Numerals
  import opened FileTree
  import ReadMgr

  /** A resolve record, as the JSON object add_rxt receives. */
  type Record = map<string, Value>

  /** RezRxtDbWriteMgr: the read manager's paths plus directory creation. */
  class WriteMgr {
    const root: Path
    const disk: Disk

    /** Where the records of key (c, n, ts) live. */
    function TimestampPath(c: string, n: string, ts: Value): (p: Path)
      reads disk
      ensures p == root + ["context", c, "name", n, "timestamp", Str(ts)]
    {
      ReadMgr.TimestampDir(disk.tree, root, c, n, ts, false).value
    }

    constructor (disk: Disk, root: Path)
      ensures this.disk == disk && this.root == root
    {
      this.disk := disk;
      this.root := root;
    }

    /** __init__: AssertionError unless root is an existing directory. */
    static method Open(disk: Disk, root: Path) returns (r: Result<WriteMgr>)
      ensures r.Ok? <==> IsDir(disk.tree, root)
      ensures r.Ok? ==> fresh(r.value) && r.value.disk == disk && r.value.root == root
      ensures r.Err? ==> r.error == AssertionError
    {
      var checked := ReadMgr.RootDir(disk.tree, root, true);
      if checked.Err? {
        return Err(checked.error);
      }
      var mgr := new WriteMgr(disk, root);
      r := Ok(mgr);
    }

    /** build_dirs(c, n, ts): makedirs of timestamp_dir(c, n, ts). It fails with
        OSError, changing nothing, when that directory already exists. */
    method BuildDirs(c: string, n: string, ts: Value) returns (o: Outcome)
      modifies disk
      ensures var p := old(TimestampPath(c, n, ts));
              && (MakeDirsBlocked(old(disk.tree), p) ==> o == Fail(OSError(p)) && disk.tree == old(disk.tree))
              && (!MakeDirsBlocked(old(disk.tree), p) ==>
                    o == Pass && disk.tree == Tree(old(disk.tree).dirs + Ancestors(p), old(disk.tree).files))
      ensures Valid(old(disk.tree)) ==> Valid(disk.tree)
      ensures ReadMgr.TimestampDir(old(disk.tree), root, c, n, ts, true).Ok? ==> o.Fail?
      ensures o.Pass? ==> ReadMgr.TimestampDir(disk.tree, root, c, n, ts, true).Ok?
      ensures disk.tree.files == old(disk.tree.files)
    {
      var p := TimestampPath(c, n, ts);
      o := disk.MakeDirs(p);
    }

    /** write_rxt(c, n, ts, record): builds the directories and writes no file. */
    method WriteRxt(c: string, n: string, ts: Value, record: Record) returns (o: Outcome)
      modifies disk
      ensures var p := old(TimestampPath(c, n, ts));
              && (MakeDirsBlocked(old(disk.tree), p) ==> o == Fail(OSError(p)) && disk.tree == old(disk.tree))
              && (!MakeDirsBlocked(old(disk.tree), p) ==>
                    o == Pass && disk.tree == Tree(old(disk.tree).dirs + Ancestors(p), old(disk.tree).files))
      ensures Valid(old(disk.tree)) ==> Valid(disk.tree)
      ensures disk.tree.files == old(disk.tree.files)
    {
      o := BuildDirs(c, n, ts);
    }
  }

  /** RezRxtDbWriter: adds records through a write manager. */
  class RxtWriter {
    const mgr: WriteMgr

    constructor (mgr: WriteMgr)
      ensures this.mgr == mgr
    {
      this.mgr := mgr;
    }

    /** __init__: builds its write manager, failing as that one does. */
    static method Open(disk: Disk, root: Path) returns (r: Result<RxtWriter>)
      ensures r.Ok? <==> IsDir(disk.tree, root)
      ensures r.Ok? ==> fresh(r.value) && r.value.mgr.disk == disk && r.value.mgr.root == root
      ensures r.Err? ==> r.error == AssertionError
    {
      var m := WriteMgr.Open(disk, root);
      if m.Err? {
        return Err(m.error);
      }
      var w := new RxtWriter(m.value);
      r := Ok(w);
    }

    /** add_rxt(c, n, record): KeyError, before touching the disk, when the
        record has no "timestamp"; otherwise write_rxt under str() of it. */
    method AddRxt(c: string, n: string, record: Record) returns (o: Outcome)
      modifies mgr.disk
      ensures "timestamp" !in record ==>
                o == Fail(RecordKeyError("timestamp")) && mgr.disk.tree == old(mgr.disk.tree)
      ensures "timestamp" in record ==>
                var ts := StrVal(Str(record["timestamp"]));
                var p := mgr.root + ["context", c, "name", n, "timestamp", Str(record["timestamp"])];
                && (MakeDirsBlocked(old(mgr.disk.tree), p) ==>
                      o == Fail(OSError(p)) && mgr.disk.tree == old(mgr.disk.tree))
                && (!MakeDirsBlocked(old(mgr.disk.tree), p) ==>
                      o == Pass && mgr.disk.tree == Tree(old(mgr.disk.tree).dirs + Ancestors(p), old(mgr.disk.tree).files))
                && (ReadMgr.TimestampDir(old(mgr.disk.tree), mgr.root, c, n, ts, true).Ok? ==> o.Fail?)
                && (o.Pass? ==> ReadMgr.TimestampDir(mgr.disk.tree, mgr.root, c, n, ts, true).Ok?)
      ensures Valid(old(mgr.disk.tree)) ==> Valid(mgr.disk.tree)
      ensures mgr.disk.tree.files == old(mgr.disk.tree.files)
    {
      if "timestamp" !in record {
        return Fail(RecordKeyError("timestamp"));
      }
      var ts := StrVal(Str(record["timestamp"]));
      o := mgr.WriteRxt(c, n, ts, record);
      if o.Pass? {
        assert ReadMgr.TimestampDir(mgr.disk.tree, mgr.root, c, n, ts, true).Ok?;
      }
    }

    /** update_rxt: not implemented; it raises and changes nothing. */
    method UpdateRxt(c: string, n: string, ts: Value, record: Record) returns (o: Outcome)
      ensures o == Fail(NotImplementedError)
    {
      o := Fail(NotImplementedError);
    }
  }

  /** A timestamp directory the writer created is seen by the python/ reader:
      its name is listed, and when it is a canonical numeral the timestamps
      generator yields its value. */
  lemma AddedTimestampListed(t: Tree, root: Path, c: string, n: string, s: string, listing: seq<string>)
    requires IsDir(t, root + ["context", c, "name", n, "timestamp", s])
    requires IsListing(t, root + ["context", c, "name", n, "timestamp"], listing)
    ensures s in listing
    ensures IsNumeral(s) && ParseAll(listing).raised.None? ==> ParseInt(s).value in ParseAll(listing).items
  {
    var d := root + ["context", c, "name", n, "timestamp"];
    assert d + [s] == root + ["context", c, "name", n, "timestamp", s];
    ChildMember(t, d, s);
    if IsNumeral(s) && ParseAll(listing).raised.None? {
      ParsedValues(listing, s);
    }
  }

  /** A freshly added timestamp directory holds no record file. */
  lemma AddedDirectoryHasNoRecord(t: Tree, p: Path, name: string)
    requires Valid(t) && !MakeDirsBlocked(t, p)
    ensures p + [name] !in Tree(t.dirs + Ancestors(p), t.files).files
  {
    assert (p + [name])[..|p|] == p;
  }
}
