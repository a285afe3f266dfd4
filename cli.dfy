/** The command line (`utils::parse_args`): a left-to-right scan of the arguments after
    the program name, where `-a` and `-o` take the next argument as their value, `-h`
    stops with the usage text, and anything else is an error. */
module Cli {
  /** `Args`: the server address and the output path. */
  datatype Args = Args(address: string, output: string)

  const DEFAULTS: Args := Args("127.0.0.1:8080", "data")

  /** The three ways the scan panics. */
  datatype ArgError =
    | MissingAddress               // `-a` was the last argument
    | MissingPath                  // `-o` was the last argument
    | UnknownArgument(arg: string) // an argument that is none of `-a`, `-o`, `-h`

  /** The result of the scan; `Help` stands for printing the usage and exiting with 0. */
  datatype Parsed = Parsed(args: Args) | Help | Failed(error: ArgError)

  /** The scan of `rest`, starting from the settings `acc`. */
  function Scan(rest: seq<string>, acc: Args): (p: Parsed)
    ensures p.Parsed? ==>
      (p.args.address == acc.address || p.args.address in rest) && (p.args.output == acc.output || p.args.output in rest)
    ensures p.Failed? && p.error.UnknownArgument? ==> p.error.arg in rest
    decreases |rest|
  {
    if rest == [] then Parsed(acc)
    else if rest[0] == "-a" then
      if |rest| == 1 then Failed(MissingAddress) else Scan(rest[2..], acc.(address := rest[1]))
    else if rest[0] == "-o" then
      if |rest| == 1 then Failed(MissingPath) else Scan(rest[2..], acc.(output := rest[1]))
    else if rest[0] == "-h" then Help
    else Failed(UnknownArgument(rest[0]))
  }

  /** `parse_args`: `argv` is the whole argument list, program name first. */
  method ParseArgs(argv: seq<string>) returns (p: Parsed)
    ensures p == Scan(if argv == [] then [] else argv[1..], DEFAULTS)
  {
    var rest := if argv == [] then [] else argv[1..];
    var settings := DEFAULTS;
    var i := 0;
    while i < |rest|
      invariant 0 <= i <= |rest|
      invariant Scan(rest, DEFAULTS) == Scan(rest[i..], settings)
    {
      var arg := rest[i];
      if arg == "-a" {
        if i + 1 == |rest| {
          return Failed(MissingAddress);
        }
        settings := settings.(address := rest[i + 1]);
        assert rest[i..][2..] == rest[i + 2..];
        i := i + 2;
      } else if arg == "-o" {
        if i + 1 == |rest| {
          return Failed(MissingPath);
        }
        settings := settings.(output := rest[i + 1]);
        assert rest[i..][2..] == rest[i + 2..];
        i := i + 2;
      } else if arg == "-h" {
        return Help;
      } else {
        return Failed(UnknownArgument(arg));
      }
    }
    return Parsed(settings);
  }

  /** The three flags are different strings. */
  lemma FlagsDistinct()
    ensures "-a" != "-o" && "-a" != "-h" && "-o" != "-h"
  {
    assert "-a"[1] == 'a' && "-o"[1] == 'o' && "-h"[1] == 'h';
  }

  /** The arguments that select `a`. */
  function Render(a: Args): seq<string> {
    ["-a", a.address, "-o", a.output]
  }

  /** Scanning is compositional: after a prefix that scans cleanly, the rest is scanned
      from the settings the prefix left. */
  lemma {:induction false} ScanAppend(xs: seq<string>, ys: seq<string>, acc: Args)
    requires Scan(xs, acc).Parsed?
    ensures Scan(xs + ys, acc) == Scan(ys, Scan(xs, acc).args)
    decreases |xs|
  {
    FlagsDistinct();
    if xs == [] {
      assert xs + ys == ys;
    } else {
      var step := if xs[0] == "-a" then acc.(address := xs[1]) else acc.(output := xs[1]);
      assert (xs + ys)[0] == xs[0] && (xs + ys)[1] == xs[1];
      assert (xs + ys)[2..] == xs[2..] + ys;
      assert Scan(xs, acc) == Scan(xs[2..], step);
      assert Scan(xs + ys, acc) == Scan(xs[2..] + ys, step);
      ScanAppend(xs[2..], ys, step);
    }
  }

  /** Rendering settings and scanning them back gives those settings, whatever came
      before. */
  lemma {:induction false} ScanRender(a: Args, acc: Args)
    ensures Scan(Render(a), acc) == Parsed(a)
  {
    FlagsDistinct();
    var r := Render(a);
    assert r[2..] == ["-o", a.output] && r[2..][2..] == [];
    assert Scan(r[2..], acc.(address := a.address)) == Parsed(a);
  }

  /** The later of two values for the same option wins. */
  lemma {:induction false} LastAddressWins(x: string, y: string, acc: Args)
    ensures Scan(["-a", x, "-a", y], acc) == Parsed(acc.(address := y))
  {
    FlagsDistinct();
    var r := ["-a", x, "-a", y];
    assert r[2..] == ["-a", y] && r[2..][2..] == [];
    assert Scan(r[2..], acc.(address := x)) == Parsed(acc.(address := y));
  }

  /** `-h` after valid arguments ends the scan with the usage text, whatever follows it. */
  lemma {:induction false} HelpStops(xs: seq<string>, rest: seq<string>, acc: Args)
    requires Scan(xs, acc).Parsed?
    ensures Scan(xs + ["-h"] + rest, acc) == Help
  {
    assert xs + ["-h"] + rest == xs + (["-h"] + rest);
    ScanAppend(xs, ["-h"] + rest, acc);
  }

  /** An argument that is none of the three flags, after valid arguments, ends the scan
      with an error naming it, whatever follows. */
  lemma {:induction false} UnknownStops(xs: seq<string>, u: string, rest: seq<string>, acc: Args)
    requires Scan(xs, acc).Parsed? && u != "-a" && u != "-o" && u != "-h"
    ensures Scan(xs + [u] + rest, acc) == Failed(UnknownArgument(u))
  {
    assert xs + [u] + rest == xs + ([u] + rest);
    ScanAppend(xs, [u] + rest, acc);
  }

  /** An option without its value at the end of the list is an error. */
  lemma {:induction false} DanglingOption(xs: seq<string>, acc: Args)
    requires Scan(xs, acc).Parsed?
    ensures Scan(xs + ["-a"], acc) == Failed(MissingAddress)
    ensures Scan(xs + ["-o"], acc) == Failed(MissingPath)
  {
    ScanAppend(xs, ["-a"], acc);
    ScanAppend(xs, ["-o"], acc);
  }
}
