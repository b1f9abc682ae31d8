/** The command-line wrapper's argument handling: splitting argv into the
    wrapper's own arguments and those passed through to the wrapped tool,
    turning the wrapper's comma-separated arguments into option strings, and
    building the command the wrapper runs. */
module Cli {
  import opened Errors

  /** The marker announcing that the next argument belongs to the wrapper. */
  const Marker := "--rropt"

  /** Reference reading of _split_args, front to back: a marker takes the
      argument after it (whatever it is) for the wrapper; a marker with
      nothing after it is dropped; every other argument passes through. */
  function Split(args: seq<string>): (seq<string>, seq<string>)
    decreases |args|
  {
    if args == [] then ([], [])
    else if args[0] == Marker then
      if |args| == 1 then ([], [])
      else
        var (w, p) := Split(args[2..]);
        ([args[1]] + w, p)
    else
      var (w, p) := Split(args[1..]);
      (w, [args[0]] + p)
  }

  /** Whether the arguments end with a marker still waiting for its argument. */
  function Pending(args: seq<string>): bool
    decreases |args|
  {
    if args == [] then false
    else if args[0] == Marker then |args| == 1 || Pending(args[2..])
    else Pending(args[1..])
  }

  /** Split and Pending after one more argument. */
  lemma {:induction false} SplitSnoc(args: seq<string>, x: string)
    ensures Pending(args) ==> Split(args + [x]) == (Split(args).0 + [x], Split(args).1) && !Pending(args + [x])
    ensures !Pending(args) && x == Marker ==> Split(args + [x]) == Split(args) && Pending(args + [x])
    ensures !Pending(args) && x != Marker ==> Split(args + [x]) == (Split(args).0, Split(args).1 + [x]) && !Pending(args + [x])
    decreases |args|
  {
    var s := args + [x];
    if args == [] {
      assert s == [x] && s[1..] == [];
      assert Split(args).1 + [x] == [x];
      assert Split(s[1..]) == ([], []) && [x] + [] == [x];
      if x != Marker {
        assert Split(s) == ([], [x]);
        assert !Pending(s);
      }
    } else if args[0] == Marker {
      if |args| == 1 {
        assert s == [Marker, x] && s[2..] == [];
        assert Split(s[2..]) == ([], []);
        assert Split(s) == ([s[1]] + [], []);
        assert Split(args) == ([], []) && Split(args).0 + [x] == [x];
        assert [x] + [] == [x];
        assert !Pending(s[2..]);
      } else {
        assert s[2..] == args[2..] + [x] && s[1] == args[1];
        SplitSnoc(args[2..], x);
        var (w, p) := Split(args[2..]);
        assert [args[1]] + (w + [x]) == ([args[1]] + w) + [x];
      }
    } else {
      assert s[1..] == args[1..] + [x];
      SplitSnoc(args[1..], x);
      var (w, p) := Split(args[1..]);
      assert [args[0]] + (p + [x]) == ([args[0]] + p) + [x];
    }
  }

  /** _split_args(args): one pass with a flag that is set by a marker and
      sends the next argument to the wrapper list. */
  method SplitArgs(args: seq<string>) returns (wrapper: seq<string>, passthrough: seq<string>)
    ensures (wrapper, passthrough) == Split(args)
  {
    wrapper, passthrough := [], [];
    var pending := false;
    for i := 0 to |args|
      invariant (wrapper, passthrough) == Split(args[..i])
      invariant pending == Pending(args[..i])
    {
      SplitSnoc(args[..i], args[i]);
      assert args[..i + 1] == args[..i] + [args[i]];
      if pending {
        wrapper := wrapper + [args[i]];
        pending := false;
        continue;
      }
      if args[i] == Marker {
        pending := true;
        continue;
      }
      passthrough := passthrough + [args[i]];
    }
    assert args[..|args|] == args;
  }

  /** Every argument is accounted for: each wrapper argument used up a marker,
      and a trailing marker is dropped. No marker passes through. */
  lemma {:induction false} SplitAccounts(args: seq<string>)
    ensures |args| == 2 * |Split(args).0| + |Split(args).1| + (if Pending(args) then 1 else 0)
    ensures Marker !in Split(args).1
    decreases |args|
  {
    if args == [] {
    } else if args[0] == Marker {
      if |args| > 1 {
        SplitAccounts(args[2..]);
      }
    } else {
      SplitAccounts(args[1..]);
    }
  }

  /** Without a marker everything passes through unchanged. */
  lemma {:induction false} NoMarkerPassesThrough(args: seq<string>)
    requires Marker !in args
    ensures Split(args) == ([], args)
    decreases |args|
  {
    if args != [] {
      assert args[1..] + [] == args[1..];
      assert Marker !in args[1..];
      NoMarkerPassesThrough(args[1..]);
      assert [args[0]] + args[1..] == args;
    }
  }

  /** Splitting works piecewise, so both lists keep the input order. */
  lemma {:induction false} SplitAppend(a: seq<string>, b: seq<string>)
    requires !Pending(a)
    ensures Split(a + b) == (Split(a).0 + Split(b).0, Split(a).1 + Split(b).1)
    ensures Pending(a + b) == Pending(b)
    decreases |a|
  {
    if a == [] {
      assert a + b == b;
      assert Split(a).0 + Split(b).0 == Split(b).0 && Split(a).1 + Split(b).1 == Split(b).1;
    } else if a[0] == Marker {
      assert |a| >= 2 && (a + b)[0] == Marker && (a + b)[1] == a[1];
      assert (a + b)[2..] == a[2..] + b;
      SplitAppend(a[2..], b);
      var (w, p) := Split(a[2..]);
      assert [a[1]] + (w + Split(b).0) == ([a[1]] + w) + Split(b).0;
    } else {
      assert (a + b)[1..] == a[1..] + b;
      SplitAppend(a[1..], b);
      var (w, p) := Split(a[1..]);
      assert [a[0]] + (p + Split(b).1) == ([a[0]] + p) + Split(b).1;
    }
  }

  /** The argument after a marker goes to the wrapper even if it is a marker. */
  lemma MarkerAfterMarker(rest: seq<string>)
    ensures Split([Marker, Marker] + rest) == ([Marker] + Split(rest).0, Split(rest).1)
  {
    assert ([Marker, Marker] + rest)[2..] == rest;
  }

  /** str.split(sep): the text between separators, always at least one piece. */
  function SplitOn(s: string, sep: char): (pieces: seq<string>)
    ensures |pieces| >= 1
    ensures forall i :: 0 <= i < |pieces| ==> sep !in pieces[i]
    decreases |s|
  {
    if s == [] then [""]
    else
      var rest := SplitOn(s[1..], sep);
      if s[0] == sep then [""] + rest
      else [[s[0]] + rest[0]] + rest[1..]
  }

  /** sep.join(pieces) */
  function Join(pieces: seq<string>, sep: char): string
    requires |pieces| >= 1
    decreases |pieces|
  {
    if |pieces| == 1 then pieces[0] else pieces[0] + [sep] + Join(pieces[1..], sep)
  }

  /** Joining the pieces gives back the string that was split. */
  lemma {:induction false} JoinSplit(s: string, sep: char)
    ensures Join(SplitOn(s, sep), sep) == s
    decreases |s|
  {
    if s != [] {
      var rest := SplitOn(s[1..], sep);
      JoinSplit(s[1..], sep);
      if s[0] == sep {
        assert ([""] + rest)[1..] == rest;
      } else {
        var ps := [[s[0]] + rest[0]] + rest[1..];
        if |rest| > 1 {
          assert ps[1..] == rest[1..];
          assert Join(rest, sep) == rest[0] + [sep] + Join(rest[1..], sep);
        }
        assert [s[0]] + s[1..] == s;
      }
    }
  }

  /** Splitting a join of separator-free pieces gives back the pieces. */
  lemma {:induction false} SplitJoin(pieces: seq<string>, sep: char)
    requires |pieces| >= 1
    requires forall i :: 0 <= i < |pieces| ==> sep !in pieces[i]
    ensures SplitOn(Join(pieces, sep), sep) == pieces
    decreases |pieces|
  {
    if |pieces| == 1 {
      NoSeparatorOnePiece(pieces[0], sep);
    } else {
      SplitJoin(pieces[1..], sep);
      SplitPrefix(pieces[0], [sep] + Join(pieces[1..], sep), sep);
      assert pieces[0] + [sep] + Join(pieces[1..], sep) == pieces[0] + ([sep] + Join(pieces[1..], sep));
      assert ([sep] + Join(pieces[1..], sep))[1..] == Join(pieces[1..], sep);
      assert SplitOn([sep] + Join(pieces[1..], sep), sep) == [""] + pieces[1..];
      assert pieces[0] + "" == pieces[0];
      assert [pieces[0]] + pieces[1..] == pieces;
    }
  }

  /** A string without a separator is a single piece. */
  lemma {:induction false} NoSeparatorOnePiece(s: string, sep: char)
    requires sep !in s
    ensures SplitOn(s, sep) == [s]
    decreases |s|
  {
    if s != [] {
      assert sep !in s[1..];
      NoSeparatorOnePiece(s[1..], sep);
      assert [s[0]] + s[1..] == s;
    }
  }

  /** A separator-free prefix becomes the front of the first piece. */
  lemma {:induction false} SplitPrefix(a: string, b: string, sep: char)
    requires sep !in a
    ensures SplitOn(a + b, sep) == [a + SplitOn(b, sep)[0]] + SplitOn(b, sep)[1..]
    decreases |a|
  {
    if a == [] {
      assert a + b == b;
      assert a + SplitOn(b, sep)[0] == SplitOn(b, sep)[0];
      assert [SplitOn(b, sep)[0]] + SplitOn(b, sep)[1..] == SplitOn(b, sep);
    } else {
      assert (a + b)[1..] == a[1..] + b;
      assert sep !in a[1..];
      SplitPrefix(a[1..], b, sep);
      assert [a[0]] + (a[1..] + SplitOn(b, sep)[0]) == a + SplitOn(b, sep)[0];
    }
  }

  /** The position of the first c in s, or |s| when there is none. */
  function FirstIndex(s: string, c: char): (k: nat)
    ensures k <= |s| && c !in s[..k]
    ensures k < |s| ==> s[k] == c
    decreases |s|
  {
    if s == [] then 0
    else if s[0] == c then 0
    else
      var k := FirstIndex(s[1..], c);
      assert s[..k + 1] == [s[0]] + s[1..][..k];
      k + 1
  }

  /** The first piece of a split is the text before the first separator. */
  lemma {:induction false} FirstPieceIsPrefix(s: string, sep: char)
    ensures SplitOn(s, sep)[0] == s[..FirstIndex(s, sep)]
    decreases |s|
  {
    if s != [] && s[0] != sep {
      FirstPieceIsPrefix(s[1..], sep);
      assert s[..FirstIndex(s, sep)] == [s[0]] + s[1..][..FirstIndex(s[1..], sep)];
    }
  }

  /** The option string for one piece: "--" when the text before its first
      "=" is longer than one character, "-" otherwise, then the piece. */
  function OptionString(piece: string): (opt: string)
    ensures var dashes := if FirstIndex(piece, '=') > 1 then 2 else 1;
            && |opt| == dashes + |piece|
            && (forall i :: 0 <= i < dashes ==> opt[i] == '-')
            && opt[dashes..] == piece
  {
    FirstPieceIsPrefix(piece, '=');
    var key := SplitOn(piece, '=')[0];
    (if |key| > 1 then "--" else "-") + piece
  }

  function OptionStrings(pieces: seq<string>): (opts: seq<string>)
    ensures |opts| == |pieces|
    ensures forall i :: 0 <= i < |pieces| ==> opts[i] == OptionString(pieces[i])
  {
    seq(|pieces|, i requires 0 <= i < |pieces| => OptionString(pieces[i]))
  }

  /** The option strings of a list of wrapper arguments: each argument split on
      ",", one option string per piece, in order. */
  function Options(args: seq<string>): seq<string>
    decreases |args|
  {
    if args == [] then []
    else Options(args[..|args| - 1]) + OptionStrings(SplitOn(args[|args| - 1], ','))
  }

  /** The number of times c occurs in s. */
  function Count(s: string, c: char): nat
    decreases |s|
  {
    if s == [] then 0 else (if s[0] == c then 1 else 0) + Count(s[1..], c)
  }

  /** A string with k separators splits into k + 1 pieces. */
  lemma {:induction false} PieceCount(s: string, sep: char)
    ensures |SplitOn(s, sep)| == Count(s, sep) + 1
    decreases |s|
  {
    if s != [] {
      PieceCount(s[1..], sep);
    }
  }

  /** The number of commas across the arguments. */
  function Commas(args: seq<string>): nat
    decreases |args|
  {
    if args == [] then 0 else Commas(args[..|args| - 1]) + Count(args[|args| - 1], ',')
  }

  /** One option string per argument plus one per comma. */
  lemma {:induction false} OptionsCount(args: seq<string>)
    ensures |Options(args)| == |args| + Commas(args)
    decreases |args|
  {
    if args != [] {
      OptionsCount(args[..|args| - 1]);
      PieceCount(args[|args| - 1], ',');
    }
  }

  /** The option strings of an argument, with their dashes stripped and joined
      with commas, give back the argument. */
  lemma ArgumentRecovered(arg: string)
    ensures var opts := OptionStrings(SplitOn(arg, ','));
            var stripped := seq(|opts|, i requires 0 <= i < |opts| =>
                                  opts[i][(if FirstIndex(SplitOn(arg, ',')[i], '=') > 1 then 2 else 1)..]);
            |stripped| >= 1 && Join(stripped, ',') == arg
  {
    var pieces := SplitOn(arg, ',');
    var opts := OptionStrings(pieces);
    var stripped := seq(|opts|, i requires 0 <= i < |opts| =>
                          opts[i][(if FirstIndex(pieces[i], '=') > 1 then 2 else 1)..]);
    assert stripped == pieces;
    JoinSplit(arg, ',');
  }

  /** The loop of parse_wrapped_args: None for no arguments, otherwise the
      option strings of every piece of every argument, in order. */
  method ParseWrappedArgs(args: Option<seq<string>>) returns (fargs: Option<seq<string>>)
    ensures args.None? ==> fargs.None?
    ensures args.Some? ==> fargs == Some(Options(args.value))
  {
    if args.None? {
      return None;
    }
    var all := args.value;
    var out: seq<string> := [];
    for i := 0 to |all|
      invariant out == Options(all[..i])
    {
      var pieces := SplitOn(all[i], ',');
      ghost var before := out;
      for j := 0 to |pieces|
        invariant out == before + OptionStrings(pieces[..j])
      {
        assert OptionStrings(pieces[..j + 1]) == OptionStrings(pieces[..j]) + [OptionString(pieces[j])];
        out := out + [OptionString(pieces[j])];
      }
      assert pieces[..|pieces|] == pieces;
      assert all[..i + 1][..i] == all[..i];
    }
    assert all[..|all|] == all;
    fargs := Some(out);
  }

  /** cmd = [tool or pkg] + passthrough: the tool when one was named (a
      non-empty string), else the package, followed by the passthrough args. */
  method Command(tool: Option<string>, pkg: string, passthrough: seq<string>) returns (cmd: seq<string>)
    ensures |cmd| == |passthrough| + 1
    ensures cmd[0] == (if tool.Some? && tool.value != "" then tool.value else pkg)
    ensures cmd[1..] == passthrough
  {
    var head := if tool.Some? && tool.value != "" then tool.value else pkg;
    cmd := [head];
    cmd := cmd + passthrough;
  }
}
