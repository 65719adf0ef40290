/** The part of gifcolormap's `main` between the command line and the
    output file: select the requests, check the decoded global colormap,
    splice the requests into it. Decoding the input and encoding the output
    are not part of the model; `colors` is the global colour table as
    decoded from the input path. */
module GifColormap {
  import opened Palette
  import opened Args

  /** Exit status 1 for every rejected command line, for an empty colour
      table and for more new colours than slots; otherwise the table is edited
      in place, as the splice pass defines, and the run goes on (status 0). */
  method Run(argv: seq<string>, scan: Scanner, colors: array<Color>) returns (status: int)
    modifies colors
    ensures status == 0 <==>
              Accepted(argv) && 0 < colors.Length &&
              |Placed(old(colors[..]), RequestedColors(argv, scan))| <= colors.Length
    ensures status != 0 ==> status == 1 && colors[..] == old(colors[..])
    ensures status == 0 ==> colors[..] == Spliced(old(colors[..]), RequestedColors(argv, scan))
  {
    var selection := SelectArguments(argv, scan);
    if selection.Rejected? {
      return 1;
    }
    if colors.Length == 0 {
      return 1;
    }
    var ok, dupcount := AddColors(colors, selection.inv.colors);
    status := if ok then 0 else 1;
  }
}
