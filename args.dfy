/** Command-line selection of gifcolormap: the `-add-color r,g,b` requests,
    in the order given, and the input and output paths, which are always the
    last two arguments. `argv` includes the program name, as in C. */
module Args {
  import opened Palette

  const AddColorFlag: string := "-add-color"
  const HelpFlag: string := "--help"

  /** Number of slots in the fixed buffer the flag positions are scanned into. */
  const IndexCapacity: nat := 256

  /** `strncmp(s, p, strlen(p)) == 0`: `s` starts with `p`, that is the
      first |p| characters of `s` match those of `p` one by one. */
  predicate HasPrefix(s: string, p: string): (b: bool)
    ensures b <==> |p| <= |s| && forall k :: 0 <= k < |p| ==> s[k] == p[k]
  {
    |p| <= |s| && s[..|p|] == p
  }

  /** The scan looks at argv[1] up to, but not including, argv[argc-1]. */
  function ScanEnd(argv: seq<string>): nat
  {
    if |argv| == 0 then 0 else |argv| - 1
  }

  /** Positions i with 1 <= i < hi whose argument starts with `-add-color`,
      in increasing order. */
  function FlagsBelow(argv: seq<string>, hi: nat): seq<nat>
    requires hi <= |argv|
  {
    if hi <= 1 then []
    else FlagsBelow(argv, hi - 1) + (if HasPrefix(argv[hi - 1], AddColorFlag) then [hi - 1] else [])
  }

  /** Every position found is in range and holds a flag argument. */
  lemma {:induction false} FlagsBelowAreFlags(argv: seq<string>, hi: nat)
    requires hi <= |argv|
    ensures forall k :: 0 <= k < |FlagsBelow(argv, hi)| ==>
              1 <= FlagsBelow(argv, hi)[k] < hi && HasPrefix(argv[FlagsBelow(argv, hi)[k]], AddColorFlag)
  {
    if hi > 1 {
      FlagsBelowAreFlags(argv, hi - 1);
    }
  }

  /** The positions are found in command-line order, each once. */
  lemma {:induction false} FlagsBelowIncreasing(argv: seq<string>, hi: nat)
    requires hi <= |argv|
    ensures forall k, l :: 0 <= k < l < |FlagsBelow(argv, hi)| ==> FlagsBelow(argv, hi)[k] < FlagsBelow(argv, hi)[l]
  {
    if hi > 1 {
      FlagsBelowIncreasing(argv, hi - 1);
      FlagsBelowAreFlags(argv, hi - 1);
    }
  }

  /** No flag argument in range is missed. */
  lemma {:induction false} FlagsBelowComplete(argv: seq<string>, hi: nat, i: nat)
    requires hi <= |argv|
    requires 1 <= i < hi && HasPrefix(argv[i], AddColorFlag)
    ensures i in FlagsBelow(argv, hi)
  {
    if i < hi - 1 {
      FlagsBelowComplete(argv, hi - 1, i);
    }
  }

  /** The positions of the colour requests on the command line. */
  function ColorFlags(argv: seq<string>): seq<nat>
  {
    FlagsBelow(argv, ScanEnd(argv))
  }

  /** Every flag position has a value argument after it. */
  lemma ColorFlagsHaveValues(argv: seq<string>)
    ensures forall k :: 0 <= k < |ColorFlags(argv)| ==> 1 <= ColorFlags(argv)[k] && ColorFlags(argv)[k] + 1 < |argv|
  {
    FlagsBelowAreFlags(argv, ScanEnd(argv));
  }

  /** Whether every check before the colour parse passes. */
  predicate Accepted(argv: seq<string>)
  {
    5 <= |argv| && 2 * |ColorFlags(argv)| + 3 <= |argv| && |ColorFlags(argv)| != 0
  }

  /** The colour conversion `sscanf(s, "%hhu,%hhu,%hhu", ...)` is not part of
      the model: a scanner gives the channel values it converted, in order,
      and it stops at the first field it cannot convert. */
  type Scanner = string -> seq<Byte>

  /** The channels of a colour, in the order the conversion fills them. */
  function Channels(c: Color): seq<Byte>
  {
    [c.r, c.g, c.b]
  }

  /** The colour a request ends up as: the fields the scan converted fill
      the channels in order, and channels it did not convert keep their
      initial value 0. */
  function ColorOf(fields: seq<Byte>): (c: Color)
    ensures forall k :: 0 <= k < 3 ==> Channels(c)[k] == if k < |fields| then fields[k] else 0
  {
    Color(if |fields| > 0 then fields[0] else 0,
          if |fields| > 1 then fields[1] else 0,
          if |fields| > 2 then fields[2] else 0)
  }

  /** The colours requested on the command line, in order: the k-th is
      read from the argument after the k-th flag. */
  function RequestedColors(argv: seq<string>, scan: Scanner): seq<Color>
  {
    var flags := ColorFlags(argv);
    ColorFlagsHaveValues(argv);
    seq(|flags|, k requires 0 <= k < |flags| => ColorOf(scan(argv[flags[k] + 1])))
  }

  datatype ArgsError =
    | Usage(help: bool)      // fewer than five arguments; `help` when argv[1] starts with --help
    | MissingParameters      // fewer arguments than two per colour plus three
    | NoColors               // no -add-color flag at all

  datatype Invocation = Invocation(colors: seq<Color>, input: string, output: string)

  datatype Selection = Selected(inv: Invocation) | Rejected(error: ArgsError)

  /** The scan loop, with the positions kept in a sequence that grows as
      needed. */
  method CollectColorFlags(argv: seq<string>) returns (indexes: seq<nat>)
    ensures indexes == ColorFlags(argv)
  {
    indexes := [];
    var i := 1;
    while i < |argv| - 1
      invariant 1 <= i && (i <= ScanEnd(argv) || i == 1)
      invariant indexes == FlagsBelow(argv, if i <= ScanEnd(argv) then i else ScanEnd(argv))
    {
      if HasPrefix(argv[i], AddColorFlag) {
        indexes := indexes + [i];
      }
      i := i + 1;
    }
  }

  /** The scan loop as written: each position goes into the next slot of a
      256-slot buffer and the count is bumped, with no check against the
      buffer's size. Where the source would write past the end, this model
      writes nothing and sets `overflow`. */
  method ScanColorFlagsFixed(argv: seq<string>, indexes: array<int>) returns (count: nat, overflow: bool)
    requires indexes.Length == IndexCapacity
    modifies indexes
    ensures count == |ColorFlags(argv)|
    ensures overflow <==> count > IndexCapacity
    ensures forall k :: 0 <= k < count && k < IndexCapacity ==> indexes[k] == ColorFlags(argv)[k]
  {
    count, overflow := 0, false;
    ghost var found: seq<nat> := [];
    var i := 1;
    while i < |argv| - 1
      invariant 1 <= i && (i <= ScanEnd(argv) || i == 1)
      invariant found == FlagsBelow(argv, if i <= ScanEnd(argv) then i else ScanEnd(argv))
      invariant count == |found| && (overflow <==> count > IndexCapacity)
      invariant forall k :: 0 <= k < count && k < IndexCapacity ==> indexes[k] == found[k]
    {
      if HasPrefix(argv[i], AddColorFlag) {
        if count < indexes.Length {
          indexes[count] := i;
        } else {
          overflow := true;
        }
        found := found + [i];
        count := count + 1;
      }
      i := i + 1;
    }
  }

  /** The argument handling of `main`: the count checks, in the source's
      order, then one colour per flag from the argument after it, then the
      two paths. Every rejection ends the program with status 1. */
  method SelectArguments(argv: seq<string>, scan: Scanner) returns (s: Selection)
    ensures |argv| < 5 ==> s == Rejected(Usage(2 <= |argv| && HasPrefix(argv[1], HelpFlag)))
    ensures 5 <= |argv| && |argv| < 2 * |ColorFlags(argv)| + 3 ==> s == Rejected(MissingParameters)
    ensures 5 <= |argv| && |ColorFlags(argv)| == 0 ==> s == Rejected(NoColors)
    ensures s.Selected? <==> Accepted(argv)
    ensures s.Selected? ==> s.inv.input == argv[|argv| - 2] && s.inv.output == argv[|argv| - 1]
    ensures s.Selected? ==> s.inv.colors == RequestedColors(argv, scan)
  {
    if |argv| < 5 {
      return Rejected(Usage(2 <= |argv| && HasPrefix(argv[1], HelpFlag)));
    }
    var indexes := CollectColorFlags(argv);
    ColorFlagsHaveValues(argv);
    assert forall k :: 0 <= k < |indexes| ==> indexes[k] + 1 < |argv|;
    if |argv| < 2 * |indexes| + 3 {
      return Rejected(MissingParameters);
    }
    if |indexes| == 0 {
      return Rejected(NoColors);
    }
    var colors: seq<Color> := [];
    var i := 0;
    while i < |indexes|
      invariant 0 <= i <= |indexes| && |colors| == i
      invariant forall k :: 0 <= k < i ==> colors[k] == ColorOf(scan(argv[indexes[k] + 1]))
    {
      colors := colors + [ColorOf(scan(argv[indexes[i] + 1]))];
      i := i + 1;
    }
    s := Selected(Invocation(colors, argv[|argv| - 2], argv[|argv| - 1]));
  }

  /** An invocation with n colour requests: each `-add-color` followed by
      its value, then the two paths. */
  function ManyColorsArgv(n: nat): (argv: seq<string>)
    ensures |argv| == 2 * n + 3
  {
    seq(2 * n + 3, i =>
      if i == 0 then "gifcolormap"
      else if i == 2 * n + 1 then "in.gif"
      else if i == 2 * n + 2 then "out.gif"
      else if i % 2 == 1 then AddColorFlag
      else "0,0,0")
  }

  /** Arguments 2j+1 and 2j+2 are a colour flag and a value that is not one. */
  predicate FlagValuePair(argv: seq<string>, j: nat)
    requires 2 * j + 2 < |argv|
  {
    argv[2 * j + 1] == AddColorFlag && !HasPrefix(argv[2 * j + 2], AddColorFlag)
  }

  lemma {:induction false} PairedFlagCount(argv: seq<string>, k: nat)
    requires 2 * k + 1 < |argv|
    requires forall j :: 0 <= j < k ==> FlagValuePair(argv, j)
    ensures |FlagsBelow(argv, 2 * k + 1)| == k
  {
    if k > 0 {
      PairedFlagCount(argv, k - 1);
      assert FlagValuePair(argv, k - 1);
      assert HasPrefix(argv[2 * k - 1], AddColorFlag);
      assert |FlagsBelow(argv, 2 * k)| == k;
    }
  }

  lemma ManyColorsPairs(n: nat)
    ensures forall j :: 0 <= j < n ==> FlagValuePair(ManyColorsArgv(n), j)
  {
    forall j | 0 <= j < n
      ensures FlagValuePair(ManyColorsArgv(n), j)
    {
      assert (2 * j + 1) % 2 == 1 && (2 * j + 2) % 2 == 0;
      assert ManyColorsArgv(n)[2 * j + 2] == "0,0,0";
    }
  }

  /** As written, the number of `-add-color` flags is not bounded by the
      256-slot buffer: 257 requests pass every check of `main`, and the
      scan has to store 257 positions. */
  lemma TooManyFlagsOverflowIndexBuffer()
    ensures var argv := ManyColorsArgv(257);
            Accepted(argv) && |ColorFlags(argv)| == 257 > IndexCapacity
  {
    var argv := ManyColorsArgv(257);
    ManyColorsPairs(257);
    PairedFlagCount(argv, 257);
    assert !HasPrefix(argv[2 * 257 + 1], AddColorFlag);
  }
}
