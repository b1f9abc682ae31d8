/** The src/ database manager (RezRxtDbMgr) and the reader that delegates to
    it (RezRxtDbReader), over the layout root/c/n/t/c-n-t.rxt. Unlike the
    python/ reader, resolve() checks that the record file exists, and
    approximate lookup has no earliest-timestamp fallback. The constructor's
    check that root is a directory is ReadMgr.RootDir with verify set. */
module DbMgr {
  import opened Errors
  import opened Numerals
  import opened FileTree
  import opened Nearest
  import ReadMgr

  /** The record file of context c, name n and timestamp string ts. */
  function RecordFile(root: Path, c: string, n: string, ts: string): (p: Path)
    ensures |p| == |root| + 4 && p[..|root| + 3] == root + [c, n, ts]
    ensures p[|root| + 3] == ReadMgr.RxtName(c, n, StrVal(ts))
  {
    root + [c, n, ts, ReadMgr.RxtName(c, n, StrVal(ts))]
  }

  /** Distinct keys (c, n, ts) have distinct record files. */
  lemma RecordFileInjective(root: Path, c1: string, n1: string, ts1: string, c2: string, n2: string, ts2: string)
    requires RecordFile(root, c1, n1, ts1) == RecordFile(root, c2, n2, ts2)
    ensures c1 == c2 && n1 == n2 && ts1 == ts2
  {
    var p1, p2 := RecordFile(root, c1, n1, ts1), RecordFile(root, c2, n2, ts2);
    assert p1[|root|] == c1 && p2[|root|] == c2;
    assert p1[|root| + 1] == n1 && p2[|root| + 1] == n2;
    assert p1[|root| + 2] == ts1 && p2[|root| + 2] == ts2;
  }

  /** The two existence checks timestamps() and resolve() open with: KeyError
      for a missing context directory, then for a missing name directory. */
  function CheckKey(t: Tree, root: Path, c: string, n: string): (r: Result<Path>)
    ensures r.Ok? <==> IsDir(t, root + [c]) && IsDir(t, root + [c, n])
    ensures r.Ok? ==> r.value == root + [c, n]
    ensures !IsDir(t, root + [c]) ==> r == Err(KeyError(root + [c]))
    ensures IsDir(t, root + [c]) && !IsDir(t, root + [c, n]) ==> r == Err(KeyError(root + [c, n]))
  {
    var namesdir := root + [c];
    if !IsDir(t, namesdir) then Err(KeyError(namesdir))
    else
      var tsdir := namesdir + [n];
      assert tsdir == root + [c, n];
      if !IsDir(t, tsdir) then Err(KeyError(tsdir)) else Ok(tsdir)
  }

  /** contexts(): the entries of the root; listdir raises OSError if the root is gone. */
  method Contexts(t: Tree, root: Path, listing: seq<string>) returns (out: Yielded<string>)
    requires IsListing(t, root, listing)
    ensures !IsDir(t, root) ==> out == Yielded([], Some(OSError(root)))
    ensures IsDir(t, root) ==> out == Yielded(listing, None)
  {
    if !IsDir(t, root) {
      return Yielded([], Some(OSError(root)));
    }
    var items: seq<string> := [];
    for i := 0 to |listing|
      invariant items == listing[..i]
    {
      items := items + [listing[i]];
    }
    assert items == listing;
    out := Yielded(items, None);
  }

  /** names(c): the entries of root/c; KeyError when c has no directory. */
  method Names(t: Tree, root: Path, c: string, listing: seq<string>) returns (out: Yielded<string>)
    requires IsListing(t, root + [c], listing)
    ensures !IsDir(t, root + [c]) ==> out == Yielded([], Some(KeyError(root + [c])))
    ensures IsDir(t, root + [c]) ==> out == Yielded(listing, None)
  {
    if !IsDir(t, root + [c]) {
      return Yielded([], Some(KeyError(root + [c])));
    }
    var items: seq<string> := [];
    for i := 0 to |listing|
      invariant items == listing[..i]
    {
      items := items + [listing[i]];
    }
    assert items == listing;
    out := Yielded(items, None);
  }

  /** timestamps(c, n): int() of each entry of root/c/n, after both key checks. */
  method Timestamps(t: Tree, root: Path, c: string, n: string, listing: seq<string>) returns (out: Yielded<nat>)
    requires IsListing(t, root + [c, n], listing)
    ensures CheckKey(t, root, c, n).Err? ==> out == Yielded([], Some(CheckKey(t, root, c, n).error))
    ensures CheckKey(t, root, c, n).Ok? ==> out == ParseAll(listing)
  {
    var dir := CheckKey(t, root, c, n);
    if dir.Err? {
      return Yielded([], Some(dir.error));
    }
    var items: seq<nat> := [];
    var i := 0;
    while i < |listing|
      invariant 0 <= i <= |listing| && |items| == i
      invariant forall k :: 0 <= k < i ==> ParseInt(listing[k]) == Some(items[k])
    {
      var v := ParseInt(listing[i]);
      if v.None? {
        out := Yielded(items, Some(ValueError(listing[i])));
        ParsesAsUnique(listing, out, ParseAll(listing));
        return;
      }
      items := items + [v.value];
      i := i + 1;
    }
    out := Yielded(items, None);
    ParsesAsUnique(listing, out, ParseAll(listing));
  }

  /** The timestamp string approximate resolve() settles on: reduce(tst) over
      the parsed entries, with RuntimeError when the fold gives 0. */
  function ApproximateStamp(q: int, listing: seq<string>): (r: Result<string>)
    ensures ParseAll(listing).raised.Some? ==> r == Err(ParseAll(listing).raised.value)
    ensures r == Err(TypeError) <==> listing == []
    ensures r.Ok? ==> && IsCanonical(r.value) && ParseInt(r.value).Some?
                      && ParseInt(r.value).value in ParseAll(listing).items
                      && ParseInt(r.value).value != 0
    ensures ParseAll(listing).raised.None? && listing != [] ==>
              (r == Err(RuntimeError) <==> ReduceTst(q, ParseAll(listing).items) == Ok(0))
    ensures r.Ok? ==> && ReduceTst(q, ParseAll(listing).items).Ok?
                      && r.value == NatToString(ReduceTst(q, ParseAll(listing).items).value)
    ensures ParseAll(listing).raised.None? && |listing| == 1 ==>
              var v := ParseAll(listing).items[0];
              r == (if v == 0 then Err(RuntimeError) else Ok(NatToString(v)))
    ensures ParseAll(listing).raised.None? && |listing| >= 2 ==>
              var latest := Latest(q, ParseAll(listing).items);
              r == (if latest.Some? && latest.value != 0 then Ok(NatToString(latest.value)) else Err(RuntimeError))
  {
    var parsed := ParseAll(listing);
    if parsed.raised.Some? then Err(parsed.raised.value)
    else
      ReduceTstClosedForm(q, parsed.items);
      var exact :- ReduceTst(q, parsed.items);
      if exact == 0 then Err(RuntimeError)
      else
        ParseShow(exact);
        Ok(NatToString(exact))
  }

  /** The last two checks of resolve(): the timestamp directory, then the
      record file inside it, each KeyError when missing. */
  function FileIn(t: Tree, root: Path, c: string, n: string, stamp: string): (r: Result<Path>)
    ensures r.Ok? <==> IsDir(t, root + [c, n, stamp]) && IsFile(t, RecordFile(root, c, n, stamp))
    ensures r.Ok? ==> r.value == RecordFile(root, c, n, stamp)
    ensures !IsDir(t, root + [c, n, stamp]) ==> r == Err(KeyError(root + [c, n, stamp]))
    ensures r.Err? ==> r.error.KeyError?
  {
    var dir := root + [c, n, stamp];
    if !IsDir(t, dir) then Err(KeyError(dir))
    else
      var file := dir + [ReadMgr.RxtName(c, n, StrVal(stamp))];
      assert file == RecordFile(root, c, n, stamp);
      if !IsFile(t, file) then Err(KeyError(file)) else Ok(file)
  }

  /** resolve(c, n, q) in exact mode: the record file for str(q). */
  function ExactFile(t: Tree, root: Path, c: string, n: string, q: int): (r: Result<Path>)
    ensures r.Ok? ==> IsFile(t, r.value) && r.value == RecordFile(root, c, n, IntToString(q))
    ensures CheckKey(t, root, c, n).Err? ==> r == Err(CheckKey(t, root, c, n).error)
    ensures r.Err? ==> r.error.KeyError?
  {
    var _ :- CheckKey(t, root, c, n);
    FileIn(t, root, c, n, IntToString(q))
  }

  /** resolve(c, n, q, approximate): the record file for q (exact) or for the
      timestamp tst settles on (approximate); each directory on the way and the
      file itself must exist. */
  function Resolve(t: Tree, root: Path, c: string, n: string, q: int, approximate: bool,
                   listing: seq<string>): (r: Result<Path>)
    ensures r.Ok? ==> IsFile(t, r.value)
    ensures r.Ok? && !approximate ==> r.value == RecordFile(root, c, n, IntToString(q))
    ensures CheckKey(t, root, c, n).Err? ==> r == Err(CheckKey(t, root, c, n).error)
    ensures r.Err? ==> r.error != AssertionError && r.error != NotImplementedError
    ensures approximate && CheckKey(t, root, c, n).Ok? && ApproximateStamp(q, listing).Err? ==>
              r == Err(ApproximateStamp(q, listing).error)
    ensures approximate && CheckKey(t, root, c, n).Ok? && ApproximateStamp(q, listing).Ok? ==>
              var stamp := ApproximateStamp(q, listing).value;
              && (r.Ok? <==> IsDir(t, root + [c, n, stamp]) && IsFile(t, RecordFile(root, c, n, stamp)))
              && (r.Err? ==> r.error.KeyError?)
    ensures approximate && r.Ok? ==>
              && ApproximateStamp(q, listing).Ok?
              && r.value == RecordFile(root, c, n, ApproximateStamp(q, listing).value)
  {
    if approximate then
      var _ :- CheckKey(t, root, c, n);
      var stamp :- ApproximateStamp(q, listing);
      FileIn(t, root, c, n, stamp)
    else
      ExactFile(t, root, c, n, q)
  }

  /** In a well-formed tree a stored record file lies in existing directories. */
  lemma StoredFileDirs(t: Tree, root: Path, c: string, n: string, stamp: string)
    requires Valid(t) && IsFile(t, RecordFile(root, c, n, stamp))
    ensures IsDir(t, root + [c]) && IsDir(t, root + [c, n]) && IsDir(t, root + [c, n, stamp])
  {
    var file := RecordFile(root, c, n, stamp);
    assert file[..|root| + 1] == root + [c];
    assert file[..|root| + 2] == root + [c, n];
    assert file[..|root| + 3] == root + [c, n, stamp];
  }

  /** In a well-formed tree, exact resolution succeeds exactly when the record
      file for q is stored, and then returns it. */
  lemma ExactResolveFindsStoredFile(t: Tree, root: Path, c: string, n: string, q: int)
    requires Valid(t)
    ensures var file := RecordFile(root, c, n, IntToString(q));
            && (ExactFile(t, root, c, n, q).Ok? <==> IsFile(t, file))
            && (IsFile(t, file) ==> ExactFile(t, root, c, n, q) == Ok(file))
            && (!IsFile(t, file) ==> ExactFile(t, root, c, n, q).error.KeyError?)
  {
    if IsFile(t, RecordFile(root, c, n, IntToString(q))) {
      StoredFileDirs(t, root, c, n, IntToString(q));
    }
  }

  /** Every entry of the timestamps directory is a canonical numeral whose
      directory holds its record file: what the writer and a complete store
      leave behind. */
  ghost predicate Complete(t: Tree, root: Path, c: string, n: string, listing: seq<string>) {
    forall i | 0 <= i < |listing| ::
      IsCanonical(listing[i]) && IsFile(t, RecordFile(root, c, n, listing[i]))
  }

  /** In a complete store, the file for a stored timestamp v resolves exactly. */
  lemma StoredTimestampResolves(t: Tree, root: Path, c: string, n: string, listing: seq<string>, v: nat)
    requires Valid(t) && Complete(t, root, c, n, listing)
    requires ParseAll(listing).raised.None? && v in ParseAll(listing).items
    ensures ExactFile(t, root, c, n, v) == Ok(RecordFile(root, c, n, NatToString(v)))
  {
    var i :| 0 <= i < |listing| && ParseAll(listing).items[i] == v;
    ShowIsCanonicalParse(v, listing[i]);
    ExactResolveFindsStoredFile(t, root, c, n, v);
  }

  /** Approximate resolution in a complete store: the file of the latest
      timestamp not after q when there is a positive one, and of the lone
      timestamp of a one-entry directory whatever q is. */
  lemma ApproximateFindsLatest(t: Tree, root: Path, c: string, n: string, q: int, listing: seq<string>)
    requires Valid(t) && IsDir(t, root + [c, n]) && IsListing(t, root + [c, n], listing)
    requires Complete(t, root, c, n, listing)
    requires ParseAll(listing).raised.None?
    requires var xs := ParseAll(listing).items;
             (|xs| >= 2 && exists v :: v in xs && 0 < v <= q) || (|xs| == 1 && xs[0] != 0)
    ensures var xs := ParseAll(listing).items;
            var chosen := if |xs| == 1 then xs[0] else LatestOrEarliest(q, xs);
            Resolve(t, root, c, n, q, true, listing) == Ok(RecordFile(root, c, n, NatToString(chosen)))
  {
    var xs := ParseAll(listing).items;
    SrcFoldChoice(q, xs);
    var chosen := if |xs| == 1 then xs[0] else LatestOrEarliest(q, xs);
    assert ApproximateStamp(q, listing) == Ok(NatToString(chosen));
    StoredTimestampResolves(t, root, c, n, listing, chosen);
    StoredFileDirs(t, root, c, n, NatToString(chosen));
  }

  /** With two or more timestamps all after q, approximate resolution raises
      RuntimeError, where the documented behaviour picks the earliest. */
  lemma ApproximateBeforeAllRaises(t: Tree, root: Path, c: string, n: string, q: int, listing: seq<string>)
    requires IsDir(t, root + [c]) && IsDir(t, root + [c, n])
    requires ParseAll(listing).raised.None?
    requires |ParseAll(listing).items| >= 2
    requires forall v :: v in ParseAll(listing).items ==> v > q
    ensures Resolve(t, root, c, n, q, true, listing) == Err(RuntimeError)
  {
    SrcFoldChoice(q, ParseAll(listing).items);
  }

  /** Timestamp 0 is the fold's "none found" value, so a stored 0 is never
      chosen: a lone "0", and "0" beside a later "9" for a query of 5, both
      raise RuntimeError. With "5" and "7" a query of 6 settles on "5". */
  lemma StoredZeroNeverChosen()
    ensures ApproximateStamp(5, ["0"]) == Err(RuntimeError)
    ensures ApproximateStamp(5, ["0", "9"]) == Err(RuntimeError)
    ensures ApproximateStamp(6, ["5", "7"]) == Ok("5")
  {
    ParseShow(0);
    ParseShow(5);
    ParseShow(7);
    ParseShow(9);
    assert ParseAll(["0"]) == Yielded([0], None) by { ParsesAsUnique(["0"], ParseAll(["0"]), Yielded([0], None)); }
    assert ParseAll(["0", "9"]) == Yielded([0, 9], None) by { ParsesAsUnique(["0", "9"], ParseAll(["0", "9"]), Yielded([0, 9], None)); }
    assert ParseAll(["5", "7"]) == Yielded([5, 7], None) by { ParsesAsUnique(["5", "7"], ParseAll(["5", "7"]), Yielded([5, 7], None)); }
    assert Latest(6, [5, 7]) == Some(5);
  }

  /** Exact resolve() under a fixed store and key, as a function of the timestamp. */
  function Exact(t: Tree, root: Path, c: string, n: string): nat -> Result<Path> {
    v => ExactFile(t, root, c, n, v)
  }

  /** out is the run of rxt_files over the run ts of the timestamps
      generator: resolve of each timestamp in order, stopping at the first
      failure, whether of resolve or of the generator itself. */
  ghost predicate RunOf(ts: Yielded<nat>, resolve: nat -> Result<Path>, out: Yielded<Path>) {
    && |out.items| <= |ts.items|
    && (forall i :: 0 <= i < |out.items| ==> resolve(ts.items[i]) == Ok(out.items[i]))
    && (|out.items| < |ts.items| ==>
          && resolve(ts.items[|out.items|]).Err?
          && out.raised == Some(resolve(ts.items[|out.items|]).error))
    && (|out.items| == |ts.items| ==> out.raised == ts.raised)
  }

  /** The loop of rxt_files: resolves each timestamp in turn. */
  method ResolveEach(ts: Yielded<nat>, resolve: nat -> Result<Path>) returns (out: Yielded<Path>)
    ensures RunOf(ts, resolve, out)
  {
    var files: seq<Path> := [];
    var i := 0;
    while i < |ts.items|
      invariant 0 <= i <= |ts.items| && |files| == i
      invariant forall k :: 0 <= k < i ==> resolve(ts.items[k]) == Ok(files[k])
    {
      var r := resolve(ts.items[i]);
      if r.Err? {
        return Yielded(files, Some(r.error));
      }
      files := files + [r.value];
      i := i + 1;
    }
    out := Yielded(files, ts.raised);
  }

  /** rxt_files(c, n): exact resolve() of each timestamp timestamps(c, n)
      yields, in order; the first failure ends the generator. */
  method RxtFiles(t: Tree, root: Path, c: string, n: string, listing: seq<string>) returns (out: Yielded<Path>)
    requires IsListing(t, root + [c, n], listing)
    ensures CheckKey(t, root, c, n).Err? ==> out == Yielded([], Some(CheckKey(t, root, c, n).error))
    ensures CheckKey(t, root, c, n).Ok? ==> RunOf(ParseAll(listing), Exact(t, root, c, n), out)
  {
    var ts := Timestamps(t, root, c, n, listing);
    out := ResolveEach(ts, Exact(t, root, c, n));
  }

  /** In a complete store rxt_files lists the record file of every entry, in
      listing order, and ends without an exception. */
  lemma CompleteStoreListsAll(t: Tree, root: Path, c: string, n: string, listing: seq<string>, out: Yielded<Path>)
    requires Valid(t) && Complete(t, root, c, n, listing)
    requires RunOf(ParseAll(listing), Exact(t, root, c, n), out)
    ensures out.raised.None? && |out.items| == |listing|
    ensures forall i :: 0 <= i < |listing| ==> out.items[i] == RecordFile(root, c, n, listing[i])
  {
    StoredTimestampsResolve(t, root, c, n, listing);
    RunYields(ParseAll(listing), Exact(t, root, c, n), out, RecordFiles(root, c, n, listing));
  }

  /** The record file of each entry of a listing, in listing order. */
  function RecordFiles(root: Path, c: string, n: string, listing: seq<string>): (files: seq<Path>)
    ensures |files| == |listing|
    ensures forall i :: 0 <= i < |listing| ==> files[i] == RecordFile(root, c, n, listing[i])
  {
    seq(|listing|, i requires 0 <= i < |listing| => RecordFile(root, c, n, listing[i]))
  }

  /** When the i-th timestamp resolves to files[i] for every i, the run yields
      exactly files and ends as the timestamps generator ended. */
  lemma RunYields(ts: Yielded<nat>, resolve: nat -> Result<Path>, out: Yielded<Path>, files: seq<Path>)
    requires RunOf(ts, resolve, out)
    requires |files| == |ts.items|
    requires forall i :: 0 <= i < |ts.items| ==> resolve(ts.items[i]) == Ok(files[i])
    ensures out == Yielded(files, ts.raised)
  {
  }

  /** Every timestamp of a complete store resolves exactly to its own record file. */
  lemma StoredTimestampsResolve(t: Tree, root: Path, c: string, n: string, listing: seq<string>)
    requires Valid(t) && Complete(t, root, c, n, listing)
    ensures ParseAll(listing).raised.None? && |ParseAll(listing).items| == |listing|
    ensures forall i :: 0 <= i < |listing| ==>
              ExactFile(t, root, c, n, ParseAll(listing).items[i]) == Ok(RecordFile(root, c, n, listing[i]))
    ensures forall i :: 0 <= i < |ParseAll(listing).items| ==>
              Exact(t, root, c, n)(ParseAll(listing).items[i]) == Ok(RecordFiles(root, c, n, listing)[i])
  {
    CompleteListingParses(listing);
    var xs := ParseAll(listing).items;
    forall i | 0 <= i < |listing|
      ensures ExactFile(t, root, c, n, xs[i]) == Ok(RecordFile(root, c, n, listing[i]))
    {
      ShowIsCanonicalParse(xs[i], listing[i]);
      StoredTimestampResolves(t, root, c, n, listing, xs[i]);
    }
  }

  /** A listing of canonical numerals parses in full. */
  lemma CompleteListingParses(listing: seq<string>)
    requires forall i | 0 <= i < |listing| :: IsCanonical(listing[i])
    ensures ParseAll(listing).raised.None? && |ParseAll(listing).items| == |listing|
  {
  }
}
