# rezrxt file-backed store, modelled in Dafny

rezrxt keeps rez resolve files (".rxt") in a directory tree. A record is keyed
by a context, a package name and an integer timestamp. This project models
the following parts of it:

- **The python/ read manager and reader**: `RezRxtDbReadMgr` and `RezRxtDbReader` (module `ReadMgr`).
  - The layout is `root/"context"/c/"name"/n/"timestamp"/t/c-n-t.rxt`.
  - Each path method can optionally verify that its own directory exists.
  - Approximate lookup picks the latest timestamp not after the query. When every timestamp is later than the query, it falls back to the earliest one.
- **The src/ database manager and reader**: `RezRxtDbMgr` and `RezRxtDbReader` (module `DbMgr`).
  - The layout is `root/c/n/t/c-n-t.rxt`.
  - `resolve` checks every directory level and the record file itself.
  - Approximate lookup raises RuntimeError where the python/ copy falls back.
- **The src/ writer** (module `Writer`).
  - `RezRxtDbWriteMgr` extends the python/ read manager, so it writes in that layout.
  - Adding a record creates its timestamp directory and writes no file.
- **The command-line wrapper's argument handling** (module `Cli`).
  - It splits argv on the `--rropt` marker.
  - It turns wrapper arguments into option strings.
  - It builds the command that is run.

Shared pieces:

- `FileTree` models the file system as a set of directory paths and a set of file paths.
  - A path is a sequence of segments.
  - `os.listdir(d)` becomes a `listing` parameter that `IsListing` constrains. A listing is duplicate-free, holds exactly the children of `d`, and comes in an order the OS picks.
  - `os.makedirs` is the method `Disk.MakeDirs` on a `Disk` object whose tree it changes in place.
- `Numerals` models Python's `str()` of integers and `int()` of directory entries.
- `Nearest` models the `tst`/`reduce` fold that both readers use, and `list.sort()`.
- `Errors` holds one constructor per Python exception that escapes.
  - A generator run to its end is a `Yielded` value: the items it yielded, then the exception that stopped it, if any.

Where the documentation and the code disagree, the model follows the code:

- The src/ resolve docstring promises only KeyError. The code also raises RuntimeError, and ValueError from `int()`.
- The writer's interface promises a duplicate-key error for a record that already exists. `makedirs` raises OSError instead.
- The python/ resolve docstring's earliest-timestamp fallback is what that copy's code does. The src/ copy raises instead.

## Model

| member | source | states |
|---|---|---|
| Numerals.NatToString | python/rezrxt/filebacked/reader.py:129 | str() of a non-negative timestamp is a canonical numeral: digits only, no leading zero except for 0 itself |
| Numerals.IntToString | python/rezrxt/filebacked/reader.py:150 | str() of any integer is non-empty and starts with a digit exactly when the integer is non-negative |
| Numerals.ParseInt | python/rezrxt/filebacked/reader.py:218 | int() of an entry succeeds exactly on non-empty digit strings, leading zeros included |
| Numerals.ParseShow | python/rezrxt/filebacked/reader.py:218 | int() reads back every str() of a timestamp |
| Numerals.ShowParse | python/rezrxt/filebacked/reader.py:218 | str() gives back every canonical numeral that int() reads |
| Numerals.ShowIsCanonicalParse | python/rezrxt/filebacked/reader.py:129 | an entry is the str() of v exactly when int() reads v from it and the entry is canonical |
| Numerals.PaddedEntryRenamed | python/rezrxt/filebacked/reader.py:238-246 | the entry "0150" is read as 150, and str(150) is the different name "150" |
| Numerals.IntToStringInjective | python/rezrxt/filebacked/reader.py:129 | distinct integers get distinct directory names |
| Numerals.ParseAll | python/rezrxt/filebacked/reader.py:217-218 | the run of the int() generator: each entry's value in order, stopping with ValueError naming the first entry that is not a numeral |
| Numerals.ParsesAsUnique | python/rezrxt/filebacked/reader.py:217-218 | only one run of that generator fits a listing |
| Numerals.ParsedValues | python/rezrxt/filebacked/reader.py:217-218 | in a fully parsed listing every entry is a numeral and its value is yielded |
| Numerals.Str | src/python/rezrxt/filebacked/writer.py:63-64 | str() of a record's timestamp: a string is kept as it is; a non-negative integer becomes a canonical numeral that int() reads back; a negative one starts with "-" |
| FileTree.ChildMember | python/rezrxt/filebacked/reader.py:180 | a name is listed in d exactly when d/name is a directory or a file |
| FileTree.ListingsAgree | python/rezrxt/filebacked/reader.py:241 | two listings of one directory hold the same names |
| FileTree.MissingDirIsEmpty | python/rezrxt/filebacked/reader.py:176-181 | in a well-formed tree nothing lies under a missing directory |
| FileTree.Ancestors | src/python/rezrxt/filebacked/writer.py:31 | the directories makedirs may create: p itself and the prefixes of p |
| FileTree.Disk.constructor | src/python/rezrxt/filebacked/writer.py:17-25 | the disk starts from the given tree |
| FileTree.Disk.MakeDirs | src/python/rezrxt/filebacked/writer.py:31 | makedirs raises OSError and changes nothing when p exists or an ancestor is a file; otherwise it adds p and its ancestors as directories, leaves the files alone and keeps the tree well-formed |
| FileTree.MakeDirsKeepsValid | src/python/rezrxt/filebacked/writer.py:31 | adding p and its ancestors keeps a well-formed tree well-formed |
| Nearest.Tst | python/rezrxt/filebacked/reader.py:226-236 | when either timestamp is not after q, the later of those that are not after q; otherwise 0 |
| Nearest.FoldTst | python/rezrxt/filebacked/reader.py:239 | the left fold returns 0, the start value or a folded timestamp, and is at least the start value and every folded timestamp not after q, without passing q |
| Nearest.ReduceTst | python/rezrxt/filebacked/reader.py:238-239 | reduce() fails with TypeError exactly on an empty sequence |
| Nearest.Latest | python/rezrxt/filebacked/reader.py:263-266 | the greatest timestamp not after q, or none exactly when every timestamp is after q |
| Nearest.Earliest | python/rezrxt/filebacked/reader.py:241-243 | the least timestamp |
| Nearest.LatestOrEarliest | python/rezrxt/filebacked/reader.py:263-266 | the documented approximate choice: a stored timestamp that is the latest not after q, or the earliest when all are after q |
| Nearest.LatestIs | python/rezrxt/filebacked/reader.py:226-236 | the latest timestamp not after q is determined by its defining properties |
| Nearest.FoldClosedForm | python/rezrxt/filebacked/reader.py:226-239 | folding tst from an accumulator gives the latest-or-zero of the accumulator and the rest |
| Nearest.ReduceTstClosedForm | python/rezrxt/filebacked/reader.py:226-239 | reduce(tst): TypeError when empty, the lone element whatever q is, and for two or more the latest timestamp not after q, or 0 if there is none |
| Nearest.FoldThenSortedFirstIsLatestOrEarliest | python/rezrxt/filebacked/reader.py:237-243 | the fold result, or the earliest timestamp when the fold gives 0, is exactly the documented latest-or-earliest choice |
| Nearest.SrcFoldChoice | src/python/rezrxt/filebacked/reader.py:115-131 | with two or more timestamps all after q the fold gives 0 (RuntimeError follows); with a positive one not after q it gives the latest; a lone timestamp is returned even when it is after q |
| Nearest.HoudiniQueries | tests/readertest.py:160-201 | for the timestamps 1503265457 and 1503266406 the queries 1503265459, 1503266705 and 1503265999 give 1503265457, 1503266406 and 1503265457; the query 1103265459 folds to 0, and the python/ choice then falls back to 1503265457 |
| Nearest.SameElementsSameEarliest | python/rezrxt/filebacked/reader.py:241-243 | the earliest timestamp depends only on which timestamps there are |
| Nearest.SortAscending | python/rezrxt/filebacked/reader.py:242 | list.sort() leaves the array ascending and a permutation of what it held |
| Nearest.Insert | python/rezrxt/filebacked/reader.py:242 | one insertion step of the sort: the first i + 1 elements end up ascending and the array stays a permutation of what it held |
| Nearest.Swap | python/rezrxt/filebacked/reader.py:242 | exchanging two neighbours keeps the same multiset of timestamps |
| Nearest.SortedFirstIsEarliest | python/rezrxt/filebacked/reader.py:243 | the first element of a sorted list is its earliest timestamp |
| ReadMgr.RootDir | python/rezrxt/filebacked/reader.py:26-39 | with verify, AssertionError exactly when root is not a directory; otherwise root |
| ReadMgr.ContextsDir | python/rezrxt/filebacked/reader.py:41-49 | root/context; with verify, KeyError naming it exactly when it is missing |
| ReadMgr.ContextDir | python/rezrxt/filebacked/reader.py:51-69 | contexts_dir/c; with verify, KeyError exactly when it is missing |
| ReadMgr.NamesDir | python/rezrxt/filebacked/reader.py:71-80 | root/context/c/name; with verify, KeyError exactly when it is missing |
| ReadMgr.NameDir | python/rezrxt/filebacked/reader.py:82-101 | names_dir/n; with verify, KeyError exactly when it is missing |
| ReadMgr.TimestampsDir | python/rezrxt/filebacked/reader.py:103-111 | name_dir/timestamp; with verify, KeyError exactly when it is missing |
| ReadMgr.TimestampDir | python/rezrxt/filebacked/reader.py:113-134 | timestamps_dir/str(ts); with verify, KeyError exactly when it is missing |
| ReadMgr.RxtName | python/rezrxt/filebacked/reader.py:136-150 | the file name is c, "-", n, "-", str(ts), ".rxt" in that order, and never fails |
| ReadMgr.RxtNameDeterminesTimestamp | python/rezrxt/filebacked/reader.py:136-150 | for a fixed context and name, the file name determines str(ts) |
| ReadMgr.RxtPath | python/rezrxt/filebacked/reader.py:152-169 | timestamp_dir/rxt_name; verify checks only the timestamp directory, never the file |
| ReadMgr.LayoutInjective | python/rezrxt/filebacked/reader.py:152-169 | distinct keys (c, n, t) are stored at distinct paths |
| ReadMgr.ResolveExact | python/rezrxt/filebacked/reader.py:248-252 | exact resolution is root/context/c/name/n/timestamp/str(q)/c-n-q.rxt |
| ReadMgr.ExactIgnoresStore | python/rezrxt/filebacked/reader.py:248-252 | exact resolution looks at nothing on disk: two trees give the same path |
| ReadMgr.Contexts | python/rezrxt/filebacked/reader.py:171-181 | the listing of the contexts directory in order; when that directory is missing, one None and then OSError |
| ReadMgr.Names | python/rezrxt/filebacked/reader.py:183-200 | KeyError when names_dir is missing; otherwise exactly its entries in listing order |
| ReadMgr.Timestamps | python/rezrxt/filebacked/reader.py:202-218 | KeyError when timestamps_dir is missing; otherwise int() of each entry in order, stopping with ValueError at a non-numeral |
| ReadMgr.RelistedTimestamps | python/rezrxt/filebacked/reader.py:237-241 | listing the timestamps again yields the same set of timestamps, again without error |
| ReadMgr.SortedFirst | python/rezrxt/filebacked/reader.py:241-243 | building the list, sorting it and taking its head gives the earliest timestamp |
| ReadMgr.ResolveApproximate | python/rezrxt/filebacked/reader.py:220-246 | KeyError without a timestamps directory; ValueError on a non-numeral entry; TypeError on an empty one; otherwise rxt_path(verify=True) of the latest timestamp not after q, or of the earliest when all are after q |
| ReadMgr.Resolve | python/rezrxt/filebacked/reader.py:255-278 | approximate lookup as above, or else exact resolution, which cannot fail |
| ReadMgr.PaddedEntryNotFound | python/rezrxt/filebacked/reader.py:238-246 | a lone entry "0150" is read as 150, and approximate lookup then raises KeyError for the missing directory "150" |
| ReadMgr.RxtFiles | python/rezrxt/filebacked/reader.py:361-376 | the exact path of each timestamp in listing order, ending as the timestamps generator ends |
| ReadMgr.MapEach | python/rezrxt/filebacked/reader.py:375-376 | the loop yields one path per timestamp, each the resolution of the timestamp at the same position |
| DbMgr.RecordFile | src/python/rezrxt/filebacked/reader.py:147-148 | the record file lies directly in root/c/n/ts and is named c-n-ts.rxt |
| DbMgr.RecordFileInjective | src/python/rezrxt/filebacked/reader.py:147-148 | distinct keys (c, n, ts) have distinct record files |
| DbMgr.CheckKey | src/python/rezrxt/filebacked/reader.py:103-109 | KeyError for a missing root/c, then for a missing root/c/n; otherwise root/c/n |
| DbMgr.Contexts | src/python/rezrxt/filebacked/reader.py:33-38 | the entries of the root in listing order; OSError if the root is gone |
| DbMgr.Names | src/python/rezrxt/filebacked/reader.py:40-57 | KeyError exactly when root/c is missing; otherwise its entries in order |
| DbMgr.Timestamps | src/python/rezrxt/filebacked/reader.py:59-82 | the two key checks, then int() of each entry in listing order |
| DbMgr.ApproximateStamp | src/python/rezrxt/filebacked/reader.py:113-134 | a ValueError from int() propagates; TypeError exactly for an empty directory; RuntimeError exactly when the fold gives 0; otherwise str() of the fold result, a stored non-zero timestamp. In closed form: a lone entry is chosen whatever q is unless it is 0; with two or more, the latest timestamp not after q is chosen unless there is none or it is 0 |
| DbMgr.FileIn | src/python/rezrxt/filebacked/reader.py:133-154 | succeeds exactly when the timestamp directory and the record file exist, and returns the record file; otherwise KeyError |
| DbMgr.ExactFile | src/python/rezrxt/filebacked/reader.py:101-154 | exact resolve(): the two key checks raise first; a success is the existing record file for str(q); every failure is KeyError |
| DbMgr.Resolve | src/python/rezrxt/filebacked/reader.py:84-154 | a success is always an existing file; the key checks come before any timestamp work. In exact mode the file is root/c/n/str(q)/c-n-q.rxt. In approximate mode the errors of the timestamp choice propagate; otherwise the lookup succeeds exactly when the chosen timestamp's directory and record file exist, returns that record file, and fails with KeyError |
| DbMgr.StoredFileDirs | src/python/rezrxt/filebacked/reader.py:140-153 | in a well-formed tree every directory above a stored record file exists |
| DbMgr.ExactResolveFindsStoredFile | src/python/rezrxt/filebacked/reader.py:139-154 | in a well-formed tree exact resolution succeeds exactly when the record file for q exists, returns it, and otherwise raises KeyError |
| DbMgr.StoredTimestampResolves | tests/readertest.py:145-157 | in a complete store every stored timestamp resolves exactly to its own record file |
| DbMgr.ApproximateFindsLatest | src/python/rezrxt/filebacked/reader.py:113-154 | in a complete store approximate lookup returns the file of the latest timestamp not after q when a positive one exists, and of the lone timestamp of a one-entry directory whatever q is |
| DbMgr.ApproximateBeforeAllRaises | src/python/rezrxt/filebacked/reader.py:127-131 | with two or more timestamps all after q, approximate lookup raises RuntimeError |
| DbMgr.StoredZeroNeverChosen | src/python/rezrxt/filebacked/reader.py:115-131 | a stored timestamp 0 is never chosen: a lone "0", and "0" with "9" for a query of 5, raise RuntimeError; with "5" and "7" a query of 6 chooses "5" |
| DbMgr.RxtFiles | src/python/rezrxt/filebacked/reader.py:237-252 | exact resolve() of each timestamp in listing order; the first failure ends the generator |
| DbMgr.ResolveEach | src/python/rezrxt/filebacked/reader.py:251-252 | the items are the successful resolutions of the first timestamps in order; a failed resolution ends the run with its error; otherwise the run ends as the timestamps generator ended |
| DbMgr.RunYields | src/python/rezrxt/filebacked/reader.py:251-252 | when every timestamp resolves to the file at its position, the generator yields exactly those files and ends as the timestamps generator ended |
| DbMgr.CompleteStoreListsAll | tests/readertest.py:257-268 | in a complete store rxt_files yields the record file of every entry in listing order and ends without error |
| DbMgr.StoredTimestampsResolve | tests/readertest.py:257-268 | in a complete store the listing parses in full and each parsed timestamp resolves exactly to the record file of the entry it came from |
| DbMgr.RecordFiles | src/python/rezrxt/filebacked/reader.py:147-148 | one record file per listing entry, at the same position |
| DbMgr.CompleteListingParses | src/python/rezrxt/filebacked/reader.py:81-82 | a listing of canonical numerals parses in full |
| Writer.WriteMgr.TimestampPath | src/python/rezrxt/filebacked/writer.py:31 | the directory a record goes to is the python/ timestamp_dir |
| Writer.WriteMgr.constructor | src/python/rezrxt/filebacked/writer.py:17-25 | the manager holds the given disk and root |
| Writer.WriteMgr.Open | src/python/rezrxt/filebacked/writer.py:17-25 | construction fails with AssertionError exactly when root is not a directory |
| Writer.WriteMgr.BuildDirs | src/python/rezrxt/filebacked/writer.py:27-31 | makedirs of timestamp_dir: OSError with nothing changed when it exists; otherwise that directory and its ancestors are added and files are untouched; afterwards timestamp_dir(verify=True) succeeds |
| Writer.WriteMgr.WriteRxt | src/python/rezrxt/filebacked/writer.py:33-37 | as build_dirs; the record is not written and no file appears |
| Writer.RxtWriter.constructor | src/python/rezrxt/filebacked/writer.py:44-47 | the writer holds the given manager |
| Writer.RxtWriter.Open | src/python/rezrxt/filebacked/writer.py:44-47 | construction fails with AssertionError exactly when root is not a directory |
| Writer.RxtWriter.AddRxt | src/python/rezrxt/filebacked/writer.py:49-64 | KeyError with nothing changed when the record has no timestamp; otherwise creates timestamp_dir(c, n, str(timestamp)) and its ancestors and nothing else; fails when that directory already exists; after a success the read manager's verified timestamp_dir succeeds |
| Writer.RxtWriter.UpdateRxt | src/python/rezrxt/filebacked/writer.py:66-78 | always raises NotImplementedError and changes nothing |
| Writer.AddedTimestampListed | src/python/rezrxt/filebacked/writer.py:11-13 | a created timestamp directory appears in the python/ reader's listing, and its value among the parsed timestamps |
| Writer.AddedDirectoryHasNoRecord | src/python/rezrxt/filebacked/writer.py:33-37 | right after an add, the new timestamp directory holds no record file |
| Cli.SplitSnoc | python/rezrxt/cli.py:135-145 | one more argument: a pending marker sends it to the wrapper list; a marker sets the flag; anything else passes through |
| Cli.SplitArgs | python/rezrxt/cli.py:124-146 | the flag loop computes the front-to-back reference split |
| Cli.SplitAccounts | python/rezrxt/cli.py:135-146 | the input length is twice the wrapper count plus the passthrough count plus one for a dangling marker; no marker passes through |
| Cli.NoMarkerPassesThrough | python/rezrxt/cli.py:142-145 | without a marker every argument passes through unchanged |
| Cli.SplitAppend | python/rezrxt/cli.py:135-146 | splitting works piecewise, so both lists keep the input order |
| Cli.MarkerAfterMarker | python/rezrxt/cli.py:137-141 | the argument after a marker goes to the wrapper even when it is itself a marker |
| Cli.SplitOn | python/rezrxt/cli.py:177-178 | str.split: at least one piece, and no piece contains the separator |
| Cli.JoinSplit | python/rezrxt/cli.py:177-178 | joining the pieces with the separator gives back the string |
| Cli.SplitJoin | python/rezrxt/cli.py:177-178 | splitting a join of separator-free pieces gives back the pieces |
| Cli.NoSeparatorOnePiece | python/rezrxt/cli.py:177 | a string without a separator is one piece |
| Cli.SplitPrefix | python/rezrxt/cli.py:177 | a separator-free prefix becomes the front of the first piece |
| Cli.FirstIndex | python/rezrxt/cli.py:179 | the position of the first "=" (or the length): no "=" before it, and "=" at it |
| Cli.FirstPieceIsPrefix | python/rezrxt/cli.py:179-180 | the first piece of piece.split("=") is the text before the first "=" |
| Cli.OptionString | python/rezrxt/cli.py:179-180 | two dashes when the text before the first "=" is longer than one character, otherwise one, followed by the piece unchanged |
| Cli.OptionStrings | python/rezrxt/cli.py:178-180 | one option string per piece, in order |
| Cli.PieceCount | python/rezrxt/cli.py:177 | an argument with k commas splits into k + 1 pieces |
| Cli.OptionsCount | python/rezrxt/cli.py:176-180 | one option string per argument plus one per comma |
| Cli.ArgumentRecovered | python/rezrxt/cli.py:176-180 | stripping the dashes from an argument's option strings and joining them with commas gives back the argument |
| Cli.ParseWrappedArgs | python/rezrxt/cli.py:172-180 | None for no arguments; otherwise the option strings of every piece of every argument, in order |
| Cli.Command | python/rezrxt/cli.py:106-107 | the tool when a non-empty one was named, else the package, followed by the passthrough arguments in order |

## Left out

- Opening an rxt file and `json.load` in `rxt_dict` (both readers). The model returns only the path that would be opened.
- The rest of the wrapper's entry point: argparse configuration and parsing of the option strings, environment lookups, the `time.time()` default, the `select` on stdin, rez context creation and shell execution, printing and `exit`.
- Both copies of `timeutils.py`, the abstract interfaces in `dbinterface.py`, `__init__.py` and `package.py`.
- The order `os.listdir` returns is not modelled. Every duplicate-free listing of the right names is allowed.
- `os.path.join` with absolute segments or separators inside a segment. Path segments are taken as plain names.
- `int()` on signs, surrounding whitespace or underscores. An entry is a timestamp only if it is a non-empty run of ASCII digits.
- Record values other than integers and strings: `str()` of floats, lists and other JSON values.
- Generators are modelled by what they produce when run to the end. Their laziness is not modelled: a consumer that stops early sees a prefix of `items`.
- The src/ writer imports its base class from the reader module in its own tree, which does not define it. The model gives the writer the python/ read manager it is written against.
- Writer.RxtWriter.AddRxt: says nothing about the record's contents, because the writer never writes them.
- ReadMgr.Contexts: models only the listing of an existing directory and the missing-directory case. Other `listdir` failures, such as permissions, are not modelled.
- Concurrent changes to the tree between two listings of one directory are not modelled: the python/ fallback's second listing sees the same tree.
