# pyads: query building and result formatting, modelled in Dafny

`pyads.py` is a command-line front end to the ADS (Astrophysics Data System)
search service. It parses its flags, builds a query dictionary, hands it to
the `ads` client library's search call, and prints every returned paper
through one of five formatters: a fixed-width row, the abstract, the bibtex
entry, the abstract-page URL or the link-gateway PDF URL. At the end it
reports the rate-limit reset time, falling back to 0 when the value does not
parse as an integer.

This project models the deterministic part of that script and proves what it
promises:

- `wrappers.dfy` — `Option` (Python's `None`) and `Result` (a value or an exception).
- `pytext.dfy` (module `PyText`) — the Python string behaviour the script uses:
  `"%s" % None`, the slice `s[:n]` with a possibly negative `n`, and `"%-Ns"`.
- `pyint.dfy` (module `PyInt`) — Python's `int(s)` on a string in base 10:
  surrounding whitespace (the ASCII blanks space, tab, line feed, vertical
  tab, form feed and carriage return, and the non-ASCII Unicode spaces; not
  the separators U+001C to U+001F), an optional sign, ASCII digits with single
  underscores between them, at most 4300 digits; `ValueError` is `None`.
- `query.dfy` (module `Query`) — the query dictionary: `{"database": "astronomy"}`
  updated with every parsed argument whose name is allow-listed and whose
  value is truthy. `BuildQuery` is the imperative version, filling the
  comprehension one argument at a time.
- `formatters.dfy` (module `Formatters`) — `func_trunc`, `print_row`,
  `print_abstract`, `print_bibtex`, `print_url_abs` and `print_url_pdf` as
  functions from a paper to the lines they print.
- `cli.dfy` (modules `Cli` and `CliProperties`) — the nested loops of `main`
  (results, then the formatter table) as the method `Run`, which also performs
  the reset fallback; the specification functions `RunTable` and `DispatchAll`
  it is proved against; and the lemmas about them.

Printing is modelled as appending one string per `print` call to an output
sequence. An exception is modelled as a value: `print_row` on a paper whose
title list is empty raises `IndexError` at `paper.title[0]`, which ends the
loop with what was already printed; `int(None)` on a missing reset value
raises `TypeError`, which the `except ValueError` handler does not catch.

Where the code and its documentation differ, the model follows the code:

- The help text of `--print_row` (pyads.py:54) mentions the year, but the row
  holds only bibcode, first author and title (`RowIgnoresYear`).
- Default values are not dropped from the query: `rows=10`, the default sort
  and the default year are truthy and so are sent with every query.
- There is no "no search parameters" guard in this script.

## Model

| member | source | states |
|---|---|---|
| `PyText.SlicePrefix` | pyads.py:100 | `s[:n]` keeps the first `n` characters for `n >= 0` (all when `n` is past the end) and drops the last `-n` for negative `n`; the result is always a prefix of `s` |
| `PyText.LeftJustify` | pyads.py:101 | `"%-Ns"`: the result is `max(len(s), N)` long, starts with `s` and is padded with blanks only |
| `PyInt.ParseStripped` | pyads.py:164 | `int()` of a string once its surrounding whitespace is stripped (`ParseInt` is this after `Strip`): an accepted string is not empty, has at most 4300 digits, and gives a negative value only after a `-` sign and a positive one only without it |
| `PyInt.ParseIntRoundTrip` | pyads.py:164 | `int()` of the decimal text of `n` gives back `n`, for every integer `n` of at most 4300 digits |
| `PyInt.ParseIntTooWide` | pyads.py:164 | `int()` of the decimal text of an integer of more than 4300 digits is a `ValueError` |
| `PyInt.SeparatorNotStripped` | pyads.py:164 | a string that starts with one of the ASCII separators U+001C to U+001F is a `ValueError` (`int("\x1c5")` included): `int()` does not strip them |
| `PyInt.ParseIntNeedsDigit` | pyads.py:164 | every string `int()` accepts contains a decimal digit |
| `Query.QueryDict` | pyads.py:72-74 | `"database"` always maps to `"astronomy"` and no argument can replace it; every other key is allow-listed with a truthy value equal to the argument's; every allow-listed truthy argument is present |
| `Query.BuildQuery` | pyads.py:72-74 | the loop over the parsed arguments followed by the update yields exactly `QueryDict(args)` |
| `Formatters.Trunc` | pyads.py:98-100 | a string shorter than the limit is returned unchanged; for a limit of at least 3, a longer string becomes exactly `limit` characters, its first `limit - 3` followed by `"..."`, so the result never exceeds the limit |
| `Formatters.TruncIdempotent` | pyads.py:98-100 | truncating a truncated string again changes nothing (limit at least 3) |
| `Formatters.TruncShape` | pyads.py:100 | the result is either the input or its first `limit - 3` characters plus `"..."` |
| `Formatters.RowLine` | pyads.py:94-104 | a row is printed exactly when the title list is non-empty; otherwise `title[0]` raises |
| `Formatters.RowColumns` | pyads.py:101-104 | the bibcode column is the bibcode padded to at least 19, then a blank, then an author column of exactly 20 characters holding the author truncated to 20, then a blank, then the first title truncated to 200 |
| `Formatters.RowWidth` | pyads.py:101-104 | a row whose bibcode fits its column is at most 241 characters long |
| `Formatters.RowIgnoresYear` | pyads.py:101-104 | the row does not depend on the paper's year |
| `Formatters.AbstractLines` | pyads.py:107-111 | `print_abstract` makes one print call, whose text is the abstract verbatim |
| `Formatters.BibtexLines` | pyads.py:114-118 | `print_bibtex` makes one print call, whose text is what the export call returns for the paper's bibcode |
| `Formatters.UrlAbsLines` | pyads.py:121-127 | at most one print call, and none exactly when the bibcode is missing |
| `Formatters.UrlAbsRoundTrip` | pyads.py:125-127 | the line is `https://ui.adsabs.harvard.edu/abs/<bibcode>/abstract`: splitting the prefix and suffix off gives back the bibcode |
| `Formatters.UrlPdfLines` | pyads.py:130-137 | at most one print call, and none exactly when the bibcode is missing |
| `Formatters.UrlPdfRoundTrip` | pyads.py:134-137 | the line is the link-gateway URL of the bibcode ending in `/PUB_PDF` when the paper has a DOI and `/EPRINT_PDF` when it has none; parsing it gives back the bibcode and the DOI test |
| `Cli.ResetTime` | pyads.py:163-166 | the only error is a missing reset value (`TypeError`, not caught); a value `int()` rejects yields 0; a value `int()` accepts (signs, surrounding whitespace and underscores included) yields exactly the parsed integer |
| `Cli.Run` | pyads.py:149-166 | the nested loops print exactly `DispatchAll(papers)`, and the status is the exception that stopped the loop, or else `time_reset`: the parsed value, 0 when it does not parse, `TypeError` when it is missing |
| `Cli.RunTableRaisedFinal` | pyads.py:150-156 | once a formatter has raised, the rest of the formatter table prints nothing |
| `Cli.DispatchRaisedFinal` | pyads.py:149-156 | once a paper has raised, the remaining papers print nothing |
| `CliProperties.PaperOutputInOrder` | pyads.py:150-156 | for one paper the enabled formatters run in the order row, abstract, bibtex, url_abs, url_pdf, and a missing title with the row enabled raises before anything is printed |
| `CliProperties.SingleFormatter` | pyads.py:150-156 | with exactly one output toggle set (the mutually exclusive, required group of line 52), a paper prints what that one formatter prints |
| `CliProperties.DispatchNoRaise` | pyads.py:149-156 | when no paper raises, the output is every paper's lines in result order |
| `CliProperties.DispatchStopsAtRaise` | pyads.py:149-156 | the first paper that raises ends the program after the lines of the papers before it |
| `CliProperties.EmptyTitleStopsRows` | pyads.py:101-104 | with `--print_row`, the first result without a title stops the program with `IndexError` after one row per earlier result |
| `CliProperties.RowsOnly` | pyads.py:149-156 | with `--print_row` and every title present, what is printed (`DispatchAll`) is one row per result, in result order, and nothing raises |
| `CliProperties.OneLinePerPaper` | pyads.py:149-156 | with exactly one toggle and no exception, each result makes at most one print call, and exactly one for the row, abstract and bibtex formatters; so nothing raises and the printed output (`DispatchAll`) holds no more printed strings than results, and as many for those three |
| `CliProperties.ResetFallback` | pyads.py:163-166 | a reset value with no decimal digit yields 0 instead of an error |
| `CliProperties.ResetReadsInteger` | pyads.py:163-164 | a reset value written as an integer of at most 4300 digits yields that integer |
| `CliProperties.ResetTooWide` | pyads.py:163-166 | a reset value written as an integer of more than 4300 digits yields 0 |

## Left out

- Argument parsing (pyads.py:28-69): usage errors, exit codes and the enforcement of the mutually exclusive output group belong to `argparse`; the parsed namespace is the input of `BuildQuery` and the output toggles are the `Flags` input of `Run`. Lemmas that rely on the group take "exactly one toggle" as a hypothesis.
- The default year `time.localtime().tm_year` (pyads.py:48): it reads the clock; it appears in the model only as an `Int` argument value.
- The import of `ads` or `ads.sandbox` (pyads.py:87-91) and the search call `SearchQuery` with the field list (pyads.py:77-85, 146): network calls into a library that is not part of this model; the sequence of returned papers is an input of `Run`.
- `ExportQuery` in `print_bibtex` (pyads.py:118): a network call; it is the function parameter `exportQuery` from the bibcode to the printed text. That function never raises, so an error inside the export call (an HTTP or rate-limit failure), which would end the loop at pyads.py:149-156 as the `IndexError` does, is not modelled.
- Terminal lines: one element of the output is one printed string, not one terminal line. A printed string may span several lines (a BibTeX entry always does; an abstract or a title may), and the newline `print` adds after each string is not modelled.
- The rate-limit trailer text and `get_ratelimits` (pyads.py:158-161): output to the diagnostic stream only; the reset value is an input of `Run`.
- `Cli.Run` stops at `time_reset`: `time.ctime` of the reset time (pyads.py:167) is locale and timezone dependent and is not modelled. `time.ctime` sits outside the `try` and raises `OverflowError` or `OSError` for a value beyond the platform's `time_t` or `localtime` range (from about 17 digits on); the model does not capture that crash, and for such a value its `Run` ends with `Ok(time_reset)` where the program ends with that exception.
- The stdout/stderr distinction and `sys.exit` (pyads.py:171-172): I/O only.
- `PyInt.ParseInt` recognises ASCII digits only; Python's `int()` also accepts the decimal digits of other scripts.
- `PyInt.ParseInt` fixes the digit limit at its default of 4300: the limit can be changed through `sys.set_int_max_str_digits` or `PYTHONINTMAXSTRDIGITS`, and Python releases before 3.10.7, 3.9.14, 3.8.14 and 3.7.14 have none.
- A first author or title that is `None` (a `TypeError` in `len` or at `title[0]`) is not modelled: the paper's first author is a string and its title a list of strings.
