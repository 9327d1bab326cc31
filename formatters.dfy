/** The per-paper formatters of the script: each turns one search result into
    the strings it prints (zero or one `print` call each). */
module Formatters {
  import opened Wrappers
  import opened PyText

  /** A search result, with the fields the script asks the search for
      (`bibtex` is fetched but never read). */
  datatype Paper = Paper(
    bibcode: Option<string>,
    firstAuthor: string,
    title: seq<string>,
    year: string,
    doi: Option<string>,
    abstractText: string)

  const BibcodeWidth: nat := 19
  const AuthorWidth: nat := 20
  const TitleLimit: nat := 200
  const Ellipsis: string := "..."

  /** `func_trunc`: a string shorter than `limit` is kept; otherwise it is cut
      to `s[:limit - 3]` and an ellipsis is appended. */
  function Trunc(s: string, limit: int): (r: string)
    ensures |s| < limit ==> r == s
    ensures limit >= 3 ==> |r| <= limit
    ensures limit >= 3 && |s| >= limit ==>
              |r| == limit && r[..limit - 3] == s[..limit - 3] && r[limit - 3..] == Ellipsis
  {
    if |s| < limit then s else SlicePrefix(s, limit - 3) + Ellipsis
  }

  /** Cutting an already cut string again changes nothing. */
  lemma TruncIdempotent(s: string, limit: int)
    requires limit >= 3
    ensures Trunc(Trunc(s, limit), limit) == Trunc(s, limit)
  {
    var r := Trunc(s, limit);
    if |s| >= limit {
      assert r == r[..limit - 3] + r[limit - 3..];
    }
  }

  /** The result is the input itself, or the input's first `limit - 3`
      characters and an ellipsis. */
  lemma TruncShape(s: string, limit: int)
    requires limit >= 3
    ensures Trunc(s, limit) == s || Trunc(s, limit) == s[..limit - 3] + Ellipsis
  {
    var r := Trunc(s, limit);
    if |s| >= limit {
      assert r == r[..limit - 3] + r[limit - 3..];
    }
  }

  /** `print_row`: `"%-19s %-20s %-s"` of the bibcode, the truncated first
      author and the truncated first title; `paper.title[0]` on an empty
      title list raises, modelled as `None`. */
  function RowLine(p: Paper): (r: Option<string>)
    ensures r.Some? <==> |p.title| > 0
  {
    if |p.title| == 0 then None
    else
      Some(LeftJustify(Show(p.bibcode), BibcodeWidth) + " "
           + LeftJustify(Trunc(p.firstAuthor, AuthorWidth), AuthorWidth) + " "
           + Trunc(p.title[0], TitleLimit))
  }

  /** The layout of a row: with `w` the width of the bibcode column (19, or
      the bibcode's length when it is longer), the author column follows a
      blank and is exactly 20 characters wide, and the truncated title starts
      after one more blank. */
  lemma RowColumns(p: Paper)
    requires |p.title| > 0
    ensures var line := RowLine(p).value;
            var b := Show(p.bibcode);
            var a := Trunc(p.firstAuthor, AuthorWidth);
            var w := if |b| < BibcodeWidth then BibcodeWidth else |b|;
            && |line| == w + 22 + |Trunc(p.title[0], TitleLimit)|
            && line[..|b|] == b
            && (forall i :: |b| <= i < w ==> line[i] == ' ')
            && line[w] == ' '
            && line[w + 1..w + 1 + |a|] == a
            && (forall i :: w + 1 + |a| <= i < w + 21 ==> line[i] == ' ')
            && line[w + 21] == ' '
            && line[w + 22..] == Trunc(p.title[0], TitleLimit)
  {
    var b := Show(p.bibcode);
    var a := Trunc(p.firstAuthor, AuthorWidth);
    var t := Trunc(p.title[0], TitleLimit);
    var c1 := LeftJustify(b, BibcodeWidth);
    var c2 := LeftJustify(a, AuthorWidth);
    var w := |c1|;
    var line := RowLine(p).value;
    assert line == c1 + " " + c2 + " " + t;
    assert |c2| == AuthorWidth;
    assert line[..|b|] == c1[..|b|];
    assert line[w + 1..w + 1 + |a|] == c2[..|a|];
    assert line[w + 22..] == t;
  }

  /** A row is never wider than 241 characters when the bibcode fits its column. */
  lemma RowWidth(p: Paper)
    requires |p.title| > 0 && |Show(p.bibcode)| <= BibcodeWidth
    ensures |RowLine(p).value| <= BibcodeWidth + AuthorWidth + TitleLimit + 2
  {
    RowColumns(p);
  }

  /** The row does not show the year, whatever the help text says. */
  lemma RowIgnoresYear(p: Paper, y: string)
    ensures RowLine(p.(year := y)) == RowLine(p)
  {
  }

  /** `print_abstract`: the abstract, verbatim. */
  function AbstractLines(p: Paper): (r: seq<string>)
    ensures |r| == 1 && r[0] == p.abstractText
  {
    [p.abstractText]
  }

  /** `print_bibtex`: whatever the export call returns for the bibcode;
      the call itself is the parameter `exportQuery`. */
  function BibtexLines(p: Paper, exportQuery: Option<string> -> string): (r: seq<string>)
    ensures |r| == 1 && r[0] == exportQuery(p.bibcode)
  {
    [exportQuery(p.bibcode)]
  }

  const AbsPrefix: string := "https://ui.adsabs.harvard.edu/abs/"
  const AbsSuffix: string := "/abstract"
  const GatewayPrefix: string := "https://ui.adsabs.harvard.edu/link_gateway/"
  const PubSuffix: string := "/PUB_PDF"
  const EprintSuffix: string := "/EPRINT_PDF"

  function AbsUrl(bibcode: string): string
  {
    AbsPrefix + bibcode + AbsSuffix
  }

  function PdfUrl(bibcode: string, hasDoi: bool): string
  {
    GatewayPrefix + bibcode + (if hasDoi then PubSuffix else EprintSuffix)
  }

  /** `print_url_abs`: nothing without a bibcode, else the abstract page URL. */
  function UrlAbsLines(p: Paper): (r: seq<string>)
    ensures |r| <= 1
    ensures r == [] <==> p.bibcode.None?
  {
    match p.bibcode
    case None => []
    case Some(b) => [AbsUrl(b)]
  }

  /** `print_url_pdf`: nothing without a bibcode, else the link-gateway URL,
      `PUB_PDF` when the paper has a DOI and `EPRINT_PDF` when it has not. */
  function UrlPdfLines(p: Paper): (r: seq<string>)
    ensures |r| <= 1
    ensures r == [] <==> p.bibcode.None?
  {
    match p.bibcode
    case None => []
    case Some(b) => [PdfUrl(b, p.doi.Some?)]
  }

  /** `pre + x + suf` split back into `x`, if `s` has that shape. */
  function Between(s: string, pre: string, suf: string): (r: Option<string>)
    ensures r.Some? ==> s == pre + r.value + suf
  {
    if |s| >= |pre| + |suf| && s[..|pre|] == pre && s[|s| - |suf|..] == suf then
      var x := s[|pre|..|s| - |suf|];
      assert s == s[..|pre|] + x + s[|s| - |suf|..];
      Some(x)
    else None
  }

  lemma BetweenOf(pre: string, x: string, suf: string)
    ensures Between(pre + x + suf, pre, suf) == Some(x)
  {
    var s := pre + x + suf;
    assert s[..|pre|] == pre;
    assert s[|s| - |suf|..] == suf;
    assert s[|pre|..|s| - |suf|] == x;
  }

  /** The bibcode an abstract page URL names. */
  function AbsUrlBibcode(url: string): Option<string>
  {
    Between(url, AbsPrefix, AbsSuffix)
  }

  /** The bibcode a link-gateway URL names, and whether it asks for the publisher's PDF. */
  function PdfUrlTarget(url: string): Option<(string, bool)>
  {
    match Between(url, GatewayPrefix, PubSuffix)
    case Some(b) => Some((b, true))
    case None =>
      match Between(url, GatewayPrefix, EprintSuffix)
      case Some(b) => Some((b, false))
      case None => None
  }

  /** The abstract URL names the paper's bibcode and nothing else. */
  lemma UrlAbsRoundTrip(p: Paper)
    requires p.bibcode.Some?
    ensures |UrlAbsLines(p)| == 1 && AbsUrlBibcode(UrlAbsLines(p)[0]) == p.bibcode
  {
    BetweenOf(AbsPrefix, p.bibcode.value, AbsSuffix);
  }

  /** The gateway URL names the paper's bibcode and tells whether it has a DOI. */
  lemma UrlPdfRoundTrip(p: Paper)
    requires p.bibcode.Some?
    ensures |UrlPdfLines(p)| == 1
    ensures PdfUrlTarget(UrlPdfLines(p)[0]) == Some((p.bibcode.value, p.doi.Some?))
  {
    var b := p.bibcode.value;
    if p.doi.Some? {
      BetweenOf(GatewayPrefix, b, PubSuffix);
    } else {
      var url := GatewayPrefix + b + EprintSuffix;
      assert url[|url| - |PubSuffix|] == 'R';
      BetweenOf(GatewayPrefix, b, EprintSuffix);
    }
  }
}
