/** `main`: for each search result, in order, run the enabled formatters in
    the fixed order row, abstract, bibtex, url_abs, url_pdf; afterwards turn
    the rate-limit reset value into an integer, 0 when it does not parse. */
module Cli {
  import opened Wrappers
  import opened PyInt
  import opened Formatters

  /** The exceptions the modelled code can raise. */
  datatype PyError =
    | IndexError  // `paper.title[0]` on an empty title list
    | TypeError   // `int(None)` when the reset value is missing

  /** The output toggles of the parsed arguments. */
  datatype Flags = Flags(
    printRow: bool,
    printAbstract: bool,
    printBibtex: bool,
    printUrlAbs: bool,
    printUrlPdf: bool)

  datatype Formatter = PrintRow | PrintAbstract | PrintBibtex | PrintUrlAbs | PrintUrlPdf

  /** The table `main` walks for every paper. */
  function Table(flags: Flags): seq<(bool, Formatter)>
  {
    [(flags.printRow, PrintRow),
     (flags.printAbstract, PrintAbstract),
     (flags.printBibtex, PrintBibtex),
     (flags.printUrlAbs, PrintUrlAbs),
     (flags.printUrlPdf, PrintUrlPdf)]
  }

  /** One formatter called on one paper: its lines, or the exception it raises. */
  function Apply(f: Formatter, p: Paper, exportQuery: Option<string> -> string): Result<seq<string>, PyError>
  {
    match f
    case PrintRow => if |p.title| == 0 then Err(IndexError) else Ok([RowLine(p).value])
    case PrintAbstract => Ok(AbstractLines(p))
    case PrintBibtex => Ok(BibtexLines(p, exportQuery))
    case PrintUrlAbs => Ok(UrlAbsLines(p))
    case PrintUrlPdf => Ok(UrlPdfLines(p))
  }

  /** What has been printed, and the exception that stopped the program, if any. */
  datatype Printed = Printed(lines: seq<string>, raised: Option<PyError>)

  /** The inner loop over a prefix of the table, for one paper. */
  function RunTable(table: seq<(bool, Formatter)>, p: Paper, exportQuery: Option<string> -> string): Printed
  {
    if table == [] then Printed([], None)
    else
      var before := RunTable(table[..|table| - 1], p, exportQuery);
      var (cond, f) := table[|table| - 1];
      if before.raised.Some? || !cond then before
      else
        match Apply(f, p, exportQuery)
        case Ok(ls) => Printed(before.lines + ls, None)
        case Err(e) => Printed(before.lines, Some(e))
  }

  function PaperOutput(p: Paper, flags: Flags, exportQuery: Option<string> -> string): Printed
  {
    RunTable(Table(flags), p, exportQuery)
  }

  /** The outer loop over a prefix of the results: an exception ends it. */
  function DispatchAll(papers: seq<Paper>, flags: Flags, exportQuery: Option<string> -> string): Printed
  {
    if papers == [] then Printed([], None)
    else
      var before := DispatchAll(papers[..|papers| - 1], flags, exportQuery);
      if before.raised.Some? then before
      else
        var now := PaperOutput(papers[|papers| - 1], flags, exportQuery);
        Printed(before.lines + now.lines, now.raised)
  }

  /** The `try`/`except ValueError` around `int(reset)`: a value that does not
      parse becomes 0; a missing value (`None`) is a `TypeError`, which the
      handler does not catch. */
  function ResetTime(reset: Option<string>): (r: Result<int, PyError>)
    ensures r.Err? <==> reset.None?
    ensures r.Err? ==> r.error == TypeError
    ensures reset.Some? && ParseInt(reset.value).None? ==> r == Ok(0)
    ensures reset.Some? && ParseInt(reset.value).Some? ==> r == Ok(ParseInt(reset.value).value)
  {
    match reset
    case None => Err(TypeError)
    case Some(s) =>
      match ParseInt(s)
      case Some(n) => Ok(n)
      case None => Ok(0)
  }

  /** Lines 149-166 of `main`: the nested loops, printing as they go, then the
      reset fallback. `status` is the reset time when `main` gets that far,
      or the exception that ended it. */
  method Run(papers: seq<Paper>, flags: Flags, exportQuery: Option<string> -> string, reset: Option<string>)
    returns (out: seq<string>, status: Result<int, PyError>)
    ensures out == DispatchAll(papers, flags, exportQuery).lines
    ensures status == match DispatchAll(papers, flags, exportQuery).raised
                      case Some(e) => Err(e)
                      case None => ResetTime(reset)
  {
    out := [];
    var raised: Option<PyError> := None;
    var table := Table(flags);
    var i := 0;
    while i < |papers| && raised.None?
      invariant 0 <= i <= |papers|
      invariant Printed(out, raised) == DispatchAll(papers[..i], flags, exportQuery)
    {
      var p := papers[i];
      ghost var outBefore := out;
      var j := 0;
      while j < |table| && raised.None?
        invariant 0 <= j <= |table|
        invariant out == outBefore + RunTable(table[..j], p, exportQuery).lines
        invariant raised == RunTable(table[..j], p, exportQuery).raised
      {
        var (cond, f) := table[j];
        RunTableStep(table, j, p, exportQuery);
        if cond {
          var r := Apply(f, p, exportQuery);
          match r {
            case Ok(ls) => out := out + ls;
            case Err(e) => raised := Some(e);
          }
        }
        j := j + 1;
      }
      PaperDone(table, j, p, exportQuery);
      DispatchStep(papers, i, flags, exportQuery);
      i := i + 1;
    }
    if raised.Some? {
      DispatchRaisedFinal(papers, i, flags, exportQuery);
      status := Err(raised.value);
    } else {
      assert papers[..i] == papers;
      match reset {
        case None => status := Err(TypeError);
        case Some(s) =>
          var parsed := ParseInt(s);
          if parsed.Some? {
            status := Ok(parsed.value);
          } else {
            status := Ok(0);
          }
      }
    }
  }

  /** One more entry of the table. */
  lemma RunTableStep(table: seq<(bool, Formatter)>, j: nat, p: Paper, exportQuery: Option<string> -> string)
    requires j < |table|
    ensures var before := RunTable(table[..j], p, exportQuery);
            RunTable(table[..j + 1], p, exportQuery) ==
              if before.raised.Some? || !table[j].0 then before
              else match Apply(table[j].1, p, exportQuery)
                   case Ok(ls) => Printed(before.lines + ls, None)
                   case Err(e) => Printed(before.lines, Some(e))
  {
    assert table[..j + 1][..j] == table[..j];
  }

  /** The inner loop ends with the whole table run, whether or not it stopped early. */
  lemma PaperDone(table: seq<(bool, Formatter)>, j: nat, p: Paper, exportQuery: Option<string> -> string)
    requires j <= |table|
    requires j == |table| || RunTable(table[..j], p, exportQuery).raised.Some?
    ensures RunTable(table, p, exportQuery) == RunTable(table[..j], p, exportQuery)
  {
    if j < |table| {
      RunTableRaisedFinal(table, j, p, exportQuery);
    } else {
      assert table[..j] == table;
    }
  }

  /** One more paper of the results. */
  lemma DispatchStep(papers: seq<Paper>, i: nat, flags: Flags, exportQuery: Option<string> -> string)
    requires i < |papers|
    requires DispatchAll(papers[..i], flags, exportQuery).raised.None?
    ensures var before := DispatchAll(papers[..i], flags, exportQuery);
            var now := PaperOutput(papers[i], flags, exportQuery);
            DispatchAll(papers[..i + 1], flags, exportQuery) == Printed(before.lines + now.lines, now.raised)
  {
    assert papers[..i + 1][..i] == papers[..i];
  }

  /** Once a formatter has raised, the rest of the table prints nothing. */
  lemma {:induction false} RunTableRaisedFinal(table: seq<(bool, Formatter)>, j: nat, p: Paper, exportQuery: Option<string> -> string)
    requires j <= |table|
    requires RunTable(table[..j], p, exportQuery).raised.Some?
    ensures RunTable(table, p, exportQuery) == RunTable(table[..j], p, exportQuery)
    decreases |table|
  {
    if j < |table| {
      assert table[..|table| - 1][..j] == table[..j];
      RunTableRaisedFinal(table[..|table| - 1], j, p, exportQuery);
    } else {
      assert table[..j] == table;
    }
  }

  /** Once a paper has raised, the remaining papers print nothing. */
  lemma {:induction false} DispatchRaisedFinal(papers: seq<Paper>, i: nat, flags: Flags, exportQuery: Option<string> -> string)
    requires i <= |papers|
    requires DispatchAll(papers[..i], flags, exportQuery).raised.Some?
    ensures DispatchAll(papers, flags, exportQuery) == DispatchAll(papers[..i], flags, exportQuery)
    decreases |papers|
  {
    if i < |papers| {
      assert papers[..|papers| - 1][..i] == papers[..i];
      DispatchRaisedFinal(papers[..|papers| - 1], i, flags, exportQuery);
    } else {
      assert papers[..i] == papers;
    }
  }
}

module CliProperties {
  import opened Wrappers
  import opened PyInt
  import opened Formatters
  import opened Cli

  /** What one paper prints, written out directly: the row, the abstract, the
      bibtex entry and the two URLs, each when enabled, in that order; an
      empty title list with the row enabled raises before anything is printed. */
  function ExpectedOutput(p: Paper, flags: Flags, exportQuery: Option<string> -> string): Printed
  {
    if flags.printRow && |p.title| == 0 then Printed([], Some(IndexError))
    else
      Printed(
        (if flags.printRow && |p.title| > 0 then [RowLine(p).value] else [])
        + (if flags.printAbstract then [p.abstractText] else [])
        + (if flags.printBibtex then [exportQuery(p.bibcode)] else [])
        + (if flags.printUrlAbs then UrlAbsLines(p) else [])
        + (if flags.printUrlPdf then UrlPdfLines(p) else []),
        None)
  }

  /** The table-driven inner loop prints exactly the expected lines, in the fixed order. */
  lemma PaperOutputInOrder(p: Paper, flags: Flags, exportQuery: Option<string> -> string)
    ensures PaperOutput(p, flags, exportQuery) == ExpectedOutput(p, flags, exportQuery)
  {
    var t := Table(flags);
    assert t[..0] == [];
    RunTableStep(t, 0, p, exportQuery);
    if flags.printRow && |p.title| == 0 {
      assert RunTable(t[..1], p, exportQuery) == Printed([], Some(IndexError));
      RunTableRaisedFinal(t, 1, p, exportQuery);
    } else {
      var row := if flags.printRow && |p.title| > 0 then [RowLine(p).value] else [];
      var abs := if flags.printAbstract then [p.abstractText] else [];
      var bib := if flags.printBibtex then [exportQuery(p.bibcode)] else [];
      var url := if flags.printUrlAbs then UrlAbsLines(p) else [];
      var pdf := if flags.printUrlPdf then UrlPdfLines(p) else [];
      assert RunTable(t[..1], p, exportQuery) == Printed(row, None);
      RunTableStep(t, 1, p, exportQuery);
      assert RunTable(t[..2], p, exportQuery) == Printed(row + abs, None);
      RunTableStep(t, 2, p, exportQuery);
      assert RunTable(t[..3], p, exportQuery) == Printed(row + abs + bib, None);
      RunTableStep(t, 3, p, exportQuery);
      assert RunTable(t[..4], p, exportQuery) == Printed(row + abs + bib + url, None);
      RunTableStep(t, 4, p, exportQuery);
      assert RunTable(t[..5], p, exportQuery) == Printed(row + abs + bib + url + pdf, None);
      assert t[..5] == t;
    }
  }

  /** The output group is required and mutually exclusive: exactly one toggle is set. */
  predicate ExactlyOne(flags: Flags)
  {
    var n := (if flags.printRow then 1 else 0) + (if flags.printAbstract then 1 else 0)
             + (if flags.printBibtex then 1 else 0) + (if flags.printUrlAbs then 1 else 0)
             + (if flags.printUrlPdf then 1 else 0);
    n == 1
  }

  /** The one formatter that runs when exactly one toggle is set. */
  function Selected(flags: Flags): Formatter
    requires ExactlyOne(flags)
  {
    if flags.printRow then PrintRow
    else if flags.printAbstract then PrintAbstract
    else if flags.printBibtex then PrintBibtex
    else if flags.printUrlAbs then PrintUrlAbs
    else PrintUrlPdf
  }

  /** With exactly one toggle set, a paper prints what that one formatter prints. */
  lemma SingleFormatter(p: Paper, flags: Flags, exportQuery: Option<string> -> string)
    requires ExactlyOne(flags)
    ensures PaperOutput(p, flags, exportQuery) ==
            match Apply(Selected(flags), p, exportQuery)
            case Ok(ls) => Printed(ls, None)
            case Err(e) => Printed([], Some(e))
  {
    PaperOutputInOrder(p, flags, exportQuery);
  }

  /** The lines of every paper, one paper after the other, front to back. */
  function AllLines(papers: seq<Paper>, flags: Flags, exportQuery: Option<string> -> string): seq<string>
  {
    if papers == [] then []
    else PaperOutput(papers[0], flags, exportQuery).lines + AllLines(papers[1..], flags, exportQuery)
  }

  lemma {:induction false} AllLinesSnoc(papers: seq<Paper>, flags: Flags, exportQuery: Option<string> -> string)
    requires |papers| > 0
    ensures AllLines(papers, flags, exportQuery) ==
            AllLines(papers[..|papers| - 1], flags, exportQuery) + PaperOutput(papers[|papers| - 1], flags, exportQuery).lines
  {
    if |papers| > 1 {
      AllLinesSnoc(papers[1..], flags, exportQuery);
      assert papers[1..][..|papers| - 2] == papers[..|papers| - 1][1..];
    }
  }

  /** When no paper raises, the program prints every paper's lines in result
      order and the loop ends normally. */
  lemma {:induction false} DispatchNoRaise(papers: seq<Paper>, flags: Flags, exportQuery: Option<string> -> string)
    requires forall i :: 0 <= i < |papers| ==> PaperOutput(papers[i], flags, exportQuery).raised.None?
    ensures DispatchAll(papers, flags, exportQuery) == Printed(AllLines(papers, flags, exportQuery), None)
  {
    if papers != [] {
      var init := papers[..|papers| - 1];
      assert forall i :: 0 <= i < |init| ==> init[i] == papers[i];
      DispatchNoRaise(init, flags, exportQuery);
      AllLinesSnoc(papers, flags, exportQuery);
    }
  }

  /** The first paper that raises ends the program: everything before it has
      been printed, then whatever it printed before raising, and nothing after. */
  lemma DispatchStopsAtRaise(papers: seq<Paper>, k: nat, flags: Flags, exportQuery: Option<string> -> string)
    requires k < |papers|
    requires forall i :: 0 <= i < k ==> PaperOutput(papers[i], flags, exportQuery).raised.None?
    requires PaperOutput(papers[k], flags, exportQuery).raised.Some?
    ensures DispatchAll(papers, flags, exportQuery) ==
            Printed(AllLines(papers[..k], flags, exportQuery) + PaperOutput(papers[k], flags, exportQuery).lines,
                    PaperOutput(papers[k], flags, exportQuery).raised)
  {
    var init := papers[..k];
    assert forall i :: 0 <= i < |init| ==> init[i] == papers[i];
    DispatchNoRaise(init, flags, exportQuery);
    DispatchStep(papers, k, flags, exportQuery);
    DispatchRaisedFinal(papers, k + 1, flags, exportQuery);
  }

  /** With `--print_row`, a result with no title stops the program with an
      `IndexError`, after the rows of the results before it. */
  lemma EmptyTitleStopsRows(papers: seq<Paper>, k: nat, flags: Flags, exportQuery: Option<string> -> string)
    requires ExactlyOne(flags) && flags.printRow
    requires k < |papers| && |papers[k].title| == 0
    requires forall i :: 0 <= i < k ==> |papers[i].title| > 0
    ensures DispatchAll(papers, flags, exportQuery) ==
            Printed(seq(k, i requires 0 <= i < k => RowLine(papers[i]).value), Some(IndexError))
  {
    forall i | 0 <= i <= k {
      SingleFormatter(papers[i], flags, exportQuery);
    }
    DispatchStopsAtRaise(papers, k, flags, exportQuery);
    RowsOnly(papers[..k], flags, exportQuery);
  }

  /** With only `--print_row` and every title present, one row per result, in order. */
  lemma {:induction false} RowsOnly(papers: seq<Paper>, flags: Flags, exportQuery: Option<string> -> string)
    requires ExactlyOne(flags) && flags.printRow
    requires forall i :: 0 <= i < |papers| ==> |papers[i].title| > 0
    ensures AllLines(papers, flags, exportQuery) == seq(|papers|, i requires 0 <= i < |papers| => RowLine(papers[i]).value)
    ensures DispatchAll(papers, flags, exportQuery) ==
            Printed(seq(|papers|, i requires 0 <= i < |papers| => RowLine(papers[i]).value), None)
  {
    forall i | 0 <= i < |papers| {
      SingleFormatter(papers[i], flags, exportQuery);
    }
    DispatchNoRaise(papers, flags, exportQuery);
    if papers != [] {
      RowsOnly(papers[1..], flags, exportQuery);
    }
  }

  /** With exactly one toggle and no exception, every result prints at most
      one string, and exactly one for the row, abstract and bibtex formatters;
      so there are no more printed strings than results. */
  lemma {:induction false} OneLinePerPaper(papers: seq<Paper>, flags: Flags, exportQuery: Option<string> -> string)
    requires ExactlyOne(flags)
    requires flags.printRow ==> forall i :: 0 <= i < |papers| ==> |papers[i].title| > 0
    ensures forall i :: 0 <= i < |papers| ==> |PaperOutput(papers[i], flags, exportQuery).lines| <= 1
    ensures !flags.printUrlAbs && !flags.printUrlPdf ==>
              forall i :: 0 <= i < |papers| ==> |PaperOutput(papers[i], flags, exportQuery).lines| == 1
    ensures |AllLines(papers, flags, exportQuery)| <= |papers|
    ensures !flags.printUrlAbs && !flags.printUrlPdf ==> |AllLines(papers, flags, exportQuery)| == |papers|
    ensures DispatchAll(papers, flags, exportQuery).raised.None?
    ensures |DispatchAll(papers, flags, exportQuery).lines| <= |papers|
    ensures !flags.printUrlAbs && !flags.printUrlPdf ==> |DispatchAll(papers, flags, exportQuery).lines| == |papers|
  {
    forall i | 0 <= i < |papers| {
      SingleFormatter(papers[i], flags, exportQuery);
    }
    DispatchNoRaise(papers, flags, exportQuery);
    if papers != [] {
      OneLinePerPaper(papers[1..], flags, exportQuery);
    }
  }

  /** A reset value that `int()` cannot read becomes 0 rather than an error. */
  lemma ResetFallback(s: string)
    requires forall i :: 0 <= i < |s| ==> !IsDigit(s[i])
    ensures ResetTime(Some(s)) == Ok(0)
  {
    if ParseInt(s).Some? {
      ParseIntNeedsDigit(s);
    }
  }

  /** A reset value written as an integer of up to 4300 digits is read back
      as that integer. */
  lemma ResetReadsInteger(n: int)
    requires Width(n) <= MaxStrDigits
    ensures ResetTime(Some(IntToString(n))) == Ok(n)
  {
    ParseIntRoundTrip(n);
  }

  /** An integer wider than `int()` accepts yields 0 like any unparsable value. */
  lemma ResetTooWide(n: int)
    requires Width(n) > MaxStrDigits
    ensures ResetTime(Some(IntToString(n))) == Ok(0)
  {
    ParseIntTooWide(n);
  }
}
