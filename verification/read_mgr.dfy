/** The python/ read manager (RezRxtDbReadMgr) and the reader that delegates
    to it (RezRxtDbReader), over the layout
      root/"context"/c/"name"/n/"timestamp"/t/c-n-t.rxt
    Every path method may verify that its own directory exists. */
module ReadMgr {
  import opened Errors
  import opened Numerals
  import opened FileTree
  import opened Nearest

  /** root_dir(verify): the store root; with verify, AssertionError unless it is
      a directory. __init__ runs the same check. */
  function RootDir(t: Tree, root: Path, verify: bool): (r: Result<Path>)
    ensures r.Ok? <==> !verify || IsDir(t, root)
    ensures r.Ok? ==> r.value == root
    ensures r.Err? ==> r.error == AssertionError
  {
    if verify && !IsDir(t, root) then Err(AssertionError) else Ok(root)
  }

  /** The optional existence test each *_dir method ends with. */
  function Verified(t: Tree, p: Path, verify: bool): Result<Path> {
    if verify && !IsDir(t, p) then Err(KeyError(p)) else Ok(p)
  }

  /** contexts_dir(verify) */
  function ContextsDir(t: Tree, root: Path, verify: bool): (r: Result<Path>)
    ensures r.Ok? <==> !verify || IsDir(t, root + ["context"])
    ensures r.Ok? ==> r.value == root + ["context"]
    ensures r.Err? ==> r.error == KeyError(root + ["context"])
  {
    Verified(t, RootDir(t, root, false).value + ["context"], verify)
  }

  /** context_dir(c, verify) */
  function ContextDir(t: Tree, root: Path, c: string, verify: bool): (r: Result<Path>)
    ensures r.Ok? <==> !verify || IsDir(t, root + ["context", c])
    ensures r.Ok? ==> r.value == ContextsDir(t, root, false).value + [c]
    ensures r.Err? ==> r.error == KeyError(root + ["context", c])
  {
    Verified(t, root + ["context", c], verify)
  }

  /** names_dir(c, verify) */
  function NamesDir(t: Tree, root: Path, c: string, verify: bool): (r: Result<Path>)
    ensures r.Ok? <==> !verify || IsDir(t, root + ["context", c, "name"])
    ensures r.Ok? ==> r.value == root + ["context", c, "name"]
    ensures r.Err? ==> r.error == KeyError(root + ["context", c, "name"])
  {
    var dir := ContextDir(t, root, c, false).value + ["name"];
    assert dir == root + ["context", c, "name"];
    Verified(t, dir, verify)
  }

  /** name_dir(c, n, verify) */
  function NameDir(t: Tree, root: Path, c: string, n: string, verify: bool): (r: Result<Path>)
    ensures r.Ok? <==> !verify || IsDir(t, root + ["context", c, "name", n])
    ensures r.Ok? ==> r.value == NamesDir(t, root, c, false).value + [n]
    ensures r.Err? ==> r.error == KeyError(root + ["context", c, "name", n])
  {
    var dir := ContextDir(t, root, c, false).value + ["name", n];
    assert dir == root + ["context", c, "name", n];
    Verified(t, dir, verify)
  }

  /** timestamps_dir(c, n, verify) */
  function TimestampsDir(t: Tree, root: Path, c: string, n: string, verify: bool): (r: Result<Path>)
    ensures r.Ok? <==> !verify || IsDir(t, root + ["context", c, "name", n, "timestamp"])
    ensures r.Ok? ==> r.value == root + ["context", c, "name", n, "timestamp"]
    ensures r.Err? ==> r.error == KeyError(root + ["context", c, "name", n, "timestamp"])
  {
    var dir := NameDir(t, root, c, n, false).value + ["timestamp"];
    assert dir == root + ["context", c, "name", n, "timestamp"];
    Verified(t, dir, verify)
  }

  /** timestamp_dir(c, n, ts, verify); ts may be an int or a string, and is named by str(ts). */
  function TimestampDir(t: Tree, root: Path, c: string, n: string, ts: Value, verify: bool): (r: Result<Path>)
    ensures r.Ok? <==> !verify || IsDir(t, root + ["context", c, "name", n, "timestamp", Str(ts)])
    ensures r.Ok? ==> r.value == TimestampsDir(t, root, c, n, false).value + [Str(ts)]
    ensures r.Err? ==> r.error == KeyError(root + ["context", c, "name", n, "timestamp", Str(ts)])
  {
    var dir := NameDir(t, root, c, n, false).value + ["timestamp", Str(ts)];
    assert dir == root + ["context", c, "name", n, "timestamp", Str(ts)];
    Verified(t, dir, verify)
  }

  /** rxt_name(c, n, ts): "c-n-ts.rxt"; it never fails. */
  function RxtName(c: string, n: string, ts: Value): (name: string)
    ensures |name| == |c| + |n| + |Str(ts)| + 6
    ensures name[..|c|] == c && name[|c|] == '-'
    ensures name[|c| + 1..|c| + 1 + |n|] == n && name[|c| + 1 + |n|] == '-'
    ensures name[|c| + |n| + 2..|name| - 4] == Str(ts) && name[|name| - 4..] == ".rxt"
  {
    c + "-" + n + "-" + Str(ts) + ".rxt"
  }

  /** For a fixed context and name, the file name determines the timestamp's str(). */
  lemma RxtNameDeterminesTimestamp(c: string, n: string, a: Value, b: Value)
    requires RxtName(c, n, a) == RxtName(c, n, b)
    ensures Str(a) == Str(b)
  {
    var x := RxtName(c, n, a);
    assert Str(a) == x[|c| + |n| + 2..|x| - 4];
  }

  /** rxt_path(c, n, ts, verify): the file under timestamp_dir; verify checks that
      directory only, never the file. */
  function RxtPath(t: Tree, root: Path, c: string, n: string, ts: Value, verify: bool): (r: Result<Path>)
    ensures r.Ok? <==> !verify || IsDir(t, root + ["context", c, "name", n, "timestamp", Str(ts)])
    ensures r.Ok? ==> r.value == TimestampDir(t, root, c, n, ts, false).value + [RxtName(c, n, ts)]
    ensures r.Err? ==> r.error == KeyError(root + ["context", c, "name", n, "timestamp", Str(ts)])
  {
    var dir :- TimestampDir(t, root, c, n, ts, verify);
    Ok(dir + [RxtName(c, n, ts)])
  }

  /** Distinct keys are stored at distinct paths. */
  lemma LayoutInjective(t: Tree, root: Path, c1: string, n1: string, q1: int, c2: string, n2: string, q2: int)
    requires RxtPath(t, root, c1, n1, IntVal(q1), false) == RxtPath(t, root, c2, n2, IntVal(q2), false)
    ensures c1 == c2 && n1 == n2 && q1 == q2
  {
    var p1 := RxtPath(t, root, c1, n1, IntVal(q1), false).value;
    var p2 := RxtPath(t, root, c2, n2, IntVal(q2), false).value;
    assert p1[|root| + 1] == c1 && p2[|root| + 1] == c2;
    assert p1[|root| + 3] == n1 && p2[|root| + 3] == n2;
    assert p1[|root| + 5] == IntToString(q1) && p2[|root| + 5] == IntToString(q2);
    IntToStringInjective(q1, q2);
  }

  /** _resolve_exact(c, n, q): the record path for q, derived without looking at the store. */
  function ResolveExact(t: Tree, root: Path, c: string, n: string, q: int): (p: Path)
    ensures p == root + ["context", c, "name", n, "timestamp", IntToString(q), RxtName(c, n, IntVal(q))]
  {
    RxtPath(t, root, c, n, IntVal(q), false).value
  }

  /** Exact resolution gives the same path whatever the store holds, so a key that
      was never stored still resolves. */
  lemma ExactIgnoresStore(t: Tree, u: Tree, root: Path, c: string, n: string, q: int)
    ensures ResolveExact(t, root, c, n, q) == ResolveExact(u, root, c, n, q)
  {
  }

  /** contexts(): a generator over the contexts directory. When that directory is
      missing it first yields None, then listdir() raises. */
  method Contexts(t: Tree, root: Path, listing: seq<string>) returns (out: Yielded<Option<string>>)
    requires IsListing(t, root + ["context"], listing)
    ensures !IsDir(t, root + ["context"]) ==> out == Yielded([None], Some(OSError(root + ["context"])))
    ensures IsDir(t, root + ["context"]) ==>
              out.raised.None? && |out.items| == |listing|
              && forall i :: 0 <= i < |listing| ==> out.items[i] == Some(listing[i])
  {
    var dir := ContextsDir(t, root, false).value;
    var items: seq<Option<string>> := [];
    if !IsDir(t, dir) {
      items := items + [None];
      return Yielded(items, Some(OSError(dir)));
    }
    for i := 0 to |listing|
      invariant |items| == i
      invariant forall k :: 0 <= k < i ==> items[k] == Some(listing[k])
    {
      items := items + [Some(listing[i])];
    }
    out := Yielded(items, None);
  }

  /** names(c): a generator over the names directory of c; KeyError when it is missing. */
  method Names(t: Tree, root: Path, c: string, listing: seq<string>) returns (out: Yielded<string>)
    requires IsListing(t, root + ["context", c, "name"], listing)
    ensures !IsDir(t, root + ["context", c, "name"]) ==>
              out == Yielded([], Some(KeyError(root + ["context", c, "name"])))
    ensures IsDir(t, root + ["context", c, "name"]) ==> out == Yielded(listing, None)
    ensures out.raised.None? ==>
              forall x :: x in out.items <==> x in Children(t, root + ["context", c, "name"])
  {
    var dir := NamesDir(t, root, c, true);
    if dir.Err? {
      return Yielded([], Some(dir.error));
    }
    var items: seq<string> := [];
    for i := 0 to |listing|
      invariant items == listing[..i]
    {
      items := items + [listing[i]];
    }
    assert items == listing;
    out := Yielded(items, None);
  }

  /** timestamps(c, n): int() of each entry of the timestamps directory, in listing
      order; KeyError when that directory is missing, ValueError at the first
      entry that is not a numeral. */
  method Timestamps(t: Tree, root: Path, c: string, n: string, listing: seq<string>) returns (out: Yielded<nat>)
    requires IsListing(t, root + ["context", c, "name", n, "timestamp"], listing)
    ensures !IsDir(t, root + ["context", c, "name", n, "timestamp"]) ==>
              out == Yielded([], Some(KeyError(root + ["context", c, "name", n, "timestamp"])))
    ensures IsDir(t, root + ["context", c, "name", n, "timestamp"]) ==> out == ParseAll(listing)
  {
    var dir := TimestampsDir(t, root, c, n, true);
    if dir.Err? {
      return Yielded([], Some(dir.error));
    }
    var items: seq<nat> := [];
    var i := 0;
    while i < |listing|
      invariant 0 <= i <= |listing| && |items| == i
      invariant forall k :: 0 <= k < i ==> ParseInt(listing[k]) == Some(items[k])
    {
      var v := ParseInt(listing[i]);
      if v.None? {
        out := Yielded(items, Some(ValueError(listing[i])));
        ParsesAsUnique(listing, out, ParseAll(listing));
        return;
      }
      items := items + [v.value];
      i := i + 1;
    }
    out := Yielded(items, None);
    ParsesAsUnique(listing, out, ParseAll(listing));
  }

  /** What approximate resolution promises: KeyError without a timestamps
      directory, ValueError on an entry that is not a numeral, TypeError on an
      empty one; otherwise rxt_path(verify=True) of the latest timestamp not
      after q, or of the earliest one when all are after q. */
  function ApproximateOutcome(t: Tree, root: Path, c: string, n: string, q: int, listing: seq<string>): Result<Path> {
    var dir := root + ["context", c, "name", n, "timestamp"];
    var parsed := ParseAll(listing);
    if !IsDir(t, dir) then Err(KeyError(dir))
    else if parsed.raised.Some? then Err(parsed.raised.value)
    else if parsed.items == [] then Err(TypeError)
    else RxtPath(t, root, c, n, IntVal(LatestOrEarliest(q, parsed.items)), true)
  }

  /** Two listings of one directory parse alike: both fully, to the same timestamps. */
  lemma RelistedTimestamps(t: Tree, d: Path, l: seq<string>, m: seq<string>)
    requires IsListing(t, d, l) && IsListing(t, d, m)
    requires ParseAll(l).raised.None?
    ensures ParseAll(m).raised.None?
    ensures forall v :: v in ParseAll(l).items <==> v in ParseAll(m).items
  {
    var pm := ParseAll(m);
    if pm.raised.Some? {
      var e := m[|pm.items|];
      ListingsAgree(t, d, l, m, e);
      ParsedValues(l, e);
      assert false;
    }
    forall v | v in ParseAll(l).items
      ensures v in ParseAll(m).items
    {
      var i :| 0 <= i < |l| && ParseAll(l).items[i] == v;
      ListingsAgree(t, d, l, m, l[i]);
      ParsedValues(m, l[i]);
    }
    forall v | v in ParseAll(m).items
      ensures v in ParseAll(l).items
    {
      var i :| 0 <= i < |m| && ParseAll(m).items[i] == v;
      ListingsAgree(t, d, l, m, m[i]);
      ParsedValues(l, m[i]);
    }
  }

  /** sorted(xs)[0]: copies the timestamps into a list, sorts it in place and
      takes its first element. */
  method SortedFirst(xs: seq<nat>) returns (first: nat)
    requires xs != []
    ensures first == Earliest(xs)
  {
    var a := new nat[|xs|](i requires 0 <= i < |xs| => xs[i]);
    assert a[..] == xs;
    SortAscending(a);
    SortedFirstIsEarliest(a[..]);
    assert forall v :: v in a[..] <==> v in multiset(a[..]);
    SameElementsSameEarliest(a[..], xs);
    first := a[0];
  }

  /** _resolve_approximate(c, n, q): reduce(tst) over the timestamps; when that
      gives 0, list again, sort and take the first. The chosen directory is
      verified, the file is not. */
  method ResolveApproximate(t: Tree, root: Path, c: string, n: string, q: int,
                            listing: seq<string>, relisting: seq<string>) returns (r: Result<Path>)
    requires IsListing(t, root + ["context", c, "name", n, "timestamp"], listing)
    requires IsListing(t, root + ["context", c, "name", n, "timestamp"], relisting)
    ensures r == ApproximateOutcome(t, root, c, n, q, listing)
  {
    var ts := Timestamps(t, root, c, n, listing);
    if ts.raised.Some? {
      return Err(ts.raised.value);
    }
    var exact :- ReduceTst(q, ts.items);
    if exact == 0 {
      var again := Timestamps(t, root, c, n, relisting);
      RelistedTimestamps(t, root + ["context", c, "name", n, "timestamp"], listing, relisting);
      var first := SortedFirst(again.items);
      SameElementsSameEarliest(ts.items, again.items);
      FoldThenSortedFirstIsLatestOrEarliest(q, ts.items, first);
      exact := first;
    } else {
      FoldThenSortedFirstIsLatestOrEarliest(q, ts.items, Earliest(ts.items));
    }
    r := RxtPath(t, root, c, n, IntVal(exact), true);
  }

  /** resolve(c, n, q, approximate): dispatches on approximate. */
  method Resolve(t: Tree, root: Path, c: string, n: string, q: int, approximate: bool,
                 listing: seq<string>, relisting: seq<string>) returns (r: Result<Path>)
    requires IsListing(t, root + ["context", c, "name", n, "timestamp"], listing)
    requires IsListing(t, root + ["context", c, "name", n, "timestamp"], relisting)
    ensures approximate ==> r == ApproximateOutcome(t, root, c, n, q, listing)
    ensures !approximate ==> r == Ok(ResolveExact(t, root, c, n, q))
  {
    if approximate {
      r := ResolveApproximate(t, root, c, n, q, listing, relisting);
    } else {
      r := Ok(ResolveExact(t, root, c, n, q));
    }
  }

  /** A zero-padded entry: int() reads it, str() renames it, and the renamed
      directory does not exist, so approximate resolution raises KeyError. */
  lemma PaddedEntryNotFound(t: Tree, root: Path, c: string, n: string, q: int)
    requires Valid(t)
    requires IsListing(t, root + ["context", c, "name", n, "timestamp"], ["0150"])
    requires IsDir(t, root + ["context", c, "name", n, "timestamp"])
    ensures ApproximateOutcome(t, root, c, n, q, ["0150"])
              == Err(KeyError(root + ["context", c, "name", n, "timestamp", "150"]))
  {
    var dir := root + ["context", c, "name", n, "timestamp"];
    PaddedEntryRenamed();
    assert ParseAll(["0150"]) == Yielded([150], None);
    assert LatestOrEarliest(q, [150]) == 150;
    ChildMember(t, dir, "150");
    assert dir + ["150"] == root + ["context", c, "name", n, "timestamp", "150"];
  }

  /** rxt_files(c, n) of the python/ reader: the exact path of every timestamp
      timestamps(c, n) yields, in the same order, ending as that generator ends. */
  method RxtFiles(t: Tree, root: Path, c: string, n: string, listing: seq<string>) returns (out: Yielded<Path>)
    requires IsListing(t, root + ["context", c, "name", n, "timestamp"], listing)
    ensures !IsDir(t, root + ["context", c, "name", n, "timestamp"]) ==>
              out == Yielded([], Some(KeyError(root + ["context", c, "name", n, "timestamp"])))
    ensures IsDir(t, root + ["context", c, "name", n, "timestamp"]) ==>
              && out.raised == ParseAll(listing).raised
              && |out.items| == |ParseAll(listing).items|
              && forall i :: 0 <= i < |out.items| ==>
                   out.items[i] == ResolveExact(t, root, c, n, ParseAll(listing).items[i])
  {
    var ts := Timestamps(t, root, c, n, listing);
    var files := MapEach(ts.items, q => ResolveExact(t, root, c, n, q));
    out := Yielded(files, ts.raised);
  }

  /** The loop of rxt_files: one path per yielded timestamp, in order. */
  method MapEach(xs: seq<nat>, resolve: nat -> Path) returns (files: seq<Path>)
    ensures |files| == |xs|
    ensures forall i :: 0 <= i < |xs| ==> files[i] == resolve(xs[i])
  {
    files := [];
    for i := 0 to |xs|
      invariant |files| == i
      invariant forall k :: 0 <= k < i ==> files[k] == resolve(xs[k])
    {
      files := files + [resolve(xs[i])];
    }
  }
}
