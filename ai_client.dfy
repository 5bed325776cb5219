/**
 * The recommendation adapter of services/ai_client.py: the text the chat
 * model returns is turned, line by line, into a list of recommendations.
 * The chat-completion request itself is not modelled; its reply text is a
 * parameter of the parse.
 */
module AiClient {
  import opened Wrappers
  import opened PyStr

  /** One suggested film and why it was suggested. */
  datatype MovieRecommendation = MovieRecommendation(title: string, reason: string)

  /** What separates a title from its reason on a reply line. */
  const Separator: string := " - "

  /**
   * A stripped line without its list number: when the line holds a ".",
   * everything up to and including the first "." goes and the rest is
   * stripped again; otherwise the line is kept as it is.
   */
  function DropNumber(line: string): (rest: string)
    ensures IsStripped(line) ==> IsStripped(rest)
  {
    match Find(line, ".")
    case Some(i) => Strip(line[i + 1..])
    case None => line
  }

  /**
   * The title and reason of a line whose number is gone: split at the first
   * " - ", or the whole text as the title with an empty reason.
   */
  function SplitTitle(rest: string): (rec: MovieRecommendation)
    ensures IsStripped(rec.reason)
    ensures IsStripped(rest) ==> IsStripped(rec.title)
  {
    match Find(rest, Separator)
    case Some(i) => MovieRecommendation(Strip(rest[..i]), Strip(rest[i + |Separator|..]))
    case None => MovieRecommendation(rest, "")
  }

  /**
   * One line of the reply: None for a line that is blank after stripping,
   * otherwise the recommendation it yields. Title and reason never start
   * or end with whitespace.
   */
  function ParseLine(raw: string): (r: Option<MovieRecommendation>)
    ensures r.None? <==> Strip(raw) == []
    ensures r.Some? ==> IsStripped(r.value.title) && IsStripped(r.value.reason)
  {
    var line := Strip(raw);
    if line == [] then None else Some(SplitTitle(DropNumber(line)))
  }

  /** The recommendations of a sequence of lines, in line order. */
  function ParseLines(lines: seq<string>): (recs: seq<MovieRecommendation>)
    ensures |recs| <= |lines|
  {
    if lines == [] then []
    else
      var init := ParseLines(lines[..|lines| - 1]);
      match ParseLine(lines[|lines| - 1])
      case Some(rec) => init + [rec]
      case None => init
  }

  /** The recommendations in a reply; a missing reply counts as the empty text. */
  function ParseReply(content: Option<string>): (recs: seq<MovieRecommendation>) {
    var text := if content.Some? then content.value else "";
    ParseLines(SplitLines(text))
  }

  /**
   * get_movie_recommendations after the chat model answered `content`: the
   * lines of the reply are parsed one by one and each non-blank line adds one
   * recommendation. The favourite title and the count only shape the prompt.
   */
  method GetMovieRecommendations(favouriteTitle: string, count: int, content: Option<string>)
    returns (recommendations: seq<MovieRecommendation>)
    ensures recommendations == ParseReply(content)
  {
    var text := if content.Some? then content.value else "";
    var lines := SplitLines(text);
    recommendations := [];
    for k := 0 to |lines|
      invariant recommendations == ParseLines(lines[..k])
    {
      ParseLinesStep(lines, k);
      var rec := ReadLine(lines[k]);
      if rec.Some? {
        recommendations := recommendations + [rec.value];
      }
    }
    assert lines[..|lines|] == lines;
  }

  /**
   * The body of the loop for one raw line: strip it and skip it when blank;
   * drop everything up to the first "." and strip again; split at the first
   * " - ", or keep the whole line as the title with an empty reason.
   */
  method ReadLine(raw: string) returns (rec: Option<MovieRecommendation>)
    ensures rec == ParseLine(raw)
  {
    var line := Strip(raw);
    if line == [] {
      return None;
    }
    ParseNonBlankLine(raw);
    var dot := Find(line, ".");
    if dot.Some? {
      DropNumberAt(line, dot.value);
      line := Strip(line[dot.value + 1..]);
    } else {
      DropNumberWhole(line);
    }
    var sep := Find(line, Separator);
    if sep.Some? {
      var titlePart, reasonPart := line[..sep.value], line[sep.value + |Separator|..];
      SplitTitleAt(line, sep.value);
      rec := Some(MovieRecommendation(Strip(titlePart), Strip(reasonPart)));
    } else {
      SplitTitleWhole(line);
      rec := Some(MovieRecommendation(line, ""));
    }
  }

  lemma ParseNonBlankLine(raw: string)
    requires Strip(raw) != []
    ensures ParseLine(raw) == Some(SplitTitle(DropNumber(Strip(raw))))
  {
  }

  lemma DropNumberAt(line: string, i: nat)
    requires Find(line, ".") == Some(i)
    ensures i + 1 <= |line|
    ensures DropNumber(line) == Strip(line[i + 1..])
  {
  }

  lemma DropNumberWhole(line: string)
    requires Find(line, ".").None?
    ensures DropNumber(line) == line
  {
  }

  lemma SplitTitleAt(rest: string, i: nat)
    requires Find(rest, Separator) == Some(i)
    ensures i + |Separator| <= |rest|
    ensures SplitTitle(rest) == MovieRecommendation(Strip(rest[..i]), Strip(rest[i + |Separator|..]))
  {
  }

  lemma SplitTitleWhole(rest: string)
    requires Find(rest, Separator).None?
    ensures SplitTitle(rest) == MovieRecommendation(rest, "")
  {
  }

  // ----- Properties of the parse -----

  /** An empty or missing reply yields no recommendations. */
  lemma EmptyReply()
    ensures ParseReply(None) == [] && ParseReply(Some("")) == []
  {
  }

  /** The number of lines that are not blank after stripping. */
  function CountNonBlank(lines: seq<string>): (n: nat)
    ensures n <= |lines|
  {
    if lines == [] then 0
    else (if Strip(lines[0]) == [] then 0 else 1) + CountNonBlank(lines[1..])
  }

  /** Parsing is line by line: the lines of a concatenation give the concatenated results. */
  lemma {:induction false} ParseLinesAppend(a: seq<string>, b: seq<string>)
    ensures ParseLines(a + b) == ParseLines(a) + ParseLines(b)
    decreases |b|
  {
    if b == [] {
      assert a + b == a;
    } else {
      var b' := b[..|b| - 1];
      assert (a + b)[..|a + b| - 1] == a + b';
      assert (a + b)[|a + b| - 1] == b[|b| - 1];
      ParseLinesAppend(a, b');
    }
  }

  lemma ParseOneLine(line: string)
    ensures ParseLines([line]) == match ParseLine(line) case Some(rec) => [rec] case None => []
  {
    assert [line][..0] == [];
  }

  /** One more line adds what that line yields. */
  lemma ParseLinesStep(lines: seq<string>, k: nat)
    requires k < |lines|
    ensures ParseLines(lines[..k + 1]) == ParseLines(lines[..k]) + match ParseLine(lines[k]) case Some(rec) => [rec] case None => []
  {
    assert lines[..k + 1][..k] == lines[..k];
  }

  /** Every non-blank line yields exactly one recommendation, and blank lines none. */
  lemma {:induction false} OneRecommendationPerLine(lines: seq<string>)
    ensures |ParseLines(lines)| == CountNonBlank(lines)
  {
    if lines != [] {
      assert lines == [lines[0]] + lines[1..];
      ParseLinesAppend([lines[0]], lines[1..]);
      ParseOneLine(lines[0]);
      OneRecommendationPerLine(lines[1..]);
    }
  }

  /** No title and no reason in a parsed reply starts or ends with whitespace. */
  lemma {:induction false} FieldsStripped(lines: seq<string>)
    ensures forall k :: 0 <= k < |ParseLines(lines)| ==>
      IsStripped(ParseLines(lines)[k].title) && IsStripped(ParseLines(lines)[k].reason)
  {
    if lines != [] {
      FieldsStripped(lines[..|lines| - 1]);
    }
  }

  // ----- The reply format the prompt asks for, and its round trip -----

  function Digit(d: nat): (c: char)
    requires d < 10
    ensures '0' <= c <= '9'
  {
    ('0' as int + d) as char
  }

  /** The decimal numeral of `n`. */
  function Decimal(n: nat): (s: string)
    ensures s != [] && forall k :: 0 <= k < |s| ==> '0' <= s[k] <= '9'
  {
    if n < 10 then [Digit(n)] else Decimal(n / 10) + [Digit(n % 10)]
  }

  /** "1. Movie Title - short reason", the line shape the prompt requests. */
  function FormatLine(n: nat, rec: MovieRecommendation): (line: string) {
    Decimal(n) + ". " + rec.title + Separator + rec.reason
  }

  /** The numbered list, one line per recommendation, counting from `n`. */
  function FormatLines(recs: seq<MovieRecommendation>, n: nat): (lines: seq<string>)
    ensures |lines| == |recs|
  {
    if recs == [] then [] else [FormatLine(n, recs[0])] + FormatLines(recs[1..], n + 1)
  }

  function FormatReply(recs: seq<MovieRecommendation>): (reply: string) {
    JoinLines(FormatLines(recs, 1))
  }

  /**
   * Text that can stand before " - " without the first " - " moving into
   * it: holding no " - " and not ending in " -".
   */
  predicate SeparatorFree(t: string) {
    && (forall j | 0 <= j < |t| :: !OccursAt(t, Separator, j))
    && !(|t| >= 2 && t[|t| - 2..] == " -")
  }

  /**
   * A recommendation the numbered format can carry: a separator-free title
   * that is not empty and has no whitespace at its ends; a reason that is not
   * empty and has no whitespace at its ends; neither holds a line break.
   */
  predicate Plain(rec: MovieRecommendation) {
    && rec.title != [] && SeparatorFree(rec.title) && IsStripped(rec.title) && NoLineBreak(rec.title)
    && rec.reason != [] && IsStripped(rec.reason) && NoLineBreak(rec.reason)
  }

  lemma FindIs(s: string, pat: string, i: nat)
    requires OccursAt(s, pat, i)
    requires forall j :: 0 <= j < i ==> !OccursAt(s, pat, j)
    ensures Find(s, pat) == Some(i)
  {
  }

  /** The first " - " of "title - reason" is the one after the title. */
  lemma SeparatorAfterTitle(t: string, r: string)
    requires SeparatorFree(t)
    ensures Find(t + Separator + r, Separator) == Some(|t|)
  {
    var s := t + Separator + r;
    assert s[..|t|] == t;
    assert s[|t|..|t| + 3] == Separator;
    assert s[|t|] == ' ';
    forall j | 0 <= j < |t| ensures !OccursAt(s, Separator, j) {
      if j + 3 <= |t| {
        NoSeparatorWithinTitle(t, s, j);
      } else if j == |t| - 1 {
        NoSeparatorAtTitleEnd(t, s);
      } else {
        NoSeparatorAcrossTitleEnd(t, s);
      }
    }
    FindIs(s, Separator, |t|);
  }

  lemma NoSeparatorWithinTitle(t: string, s: string, j: nat)
    requires |t| <= |s| && s[..|t|] == t
    requires j + 3 <= |t| && !OccursAt(t, Separator, j)
    ensures !OccursAt(s, Separator, j)
  {
    assert s[j..j + 3] == t[j..j + 3];
  }

  lemma NoSeparatorAtTitleEnd(t: string, s: string)
    requires |t| < |s| && t != [] && s[|t|] == ' '
    ensures !OccursAt(s, Separator, |t| - 1)
  {
    var j := |t| - 1;
    if j + 3 <= |s| {
      assert s[j..j + 3][1] == s[|t|] != Separator[1];
    }
  }

  lemma NoSeparatorAcrossTitleEnd(t: string, s: string)
    requires |t| <= |s| && s[..|t|] == t && |t| >= 2 && t[|t| - 2..] != " -"
    ensures !OccursAt(s, Separator, |t| - 2)
  {
    var j := |t| - 2;
    assert s[j..|t|] == t[j..];
    if j + 3 <= |s| {
      assert s[j..j + 3][..2] == s[j..|t|] != Separator[..2];
    }
  }

  /** The first "." of a line is the one after a prefix that holds none. */
  lemma FirstDotAt(p: string, rest: string)
    requires Find(p, ".").None?
    ensures Find(p + "." + rest, ".") == Some(|p|)
  {
    var line := p + "." + rest;
    assert line[|p|..|p| + 1] == ".";
    forall j | 0 <= j < |p| ensures !OccursAt(line, ".", j) {
      assert line[j..j + 1] == p[j..j + 1];
      assert !OccursAt(p, ".", j);
    }
    FindIs(line, ".", |p|);
  }

  /**
   * Whatever text stands before the first "." of a line, only the stripped
   * text after it is split into title and reason.
   */
  lemma TextBeforeFirstDotIgnored(p: string, rest: string)
    requires Find(p, ".").None?
    ensures ParseLine(p + "." + rest) == Some(SplitTitle(Strip(rest)))
  {
    var line := p + "." + rest;
    var front, back := StripLeft(p), StripRight(rest);
    StripLeftSlice(p);
    StripRightSlice(rest);
    var a, b := p[..|p| - |front|], rest[|back|..];
    var s := front + "." + back;
    assert line == a + s + b;
    assert s[0] == if front == [] then '.' else front[0];
    assert s[|s| - 1] == if back == [] then '.' else back[|back| - 1];
    StripUnique(a, s, b);
    NoDotInSuffix(p, |p| - |front|);
    FirstDotAt(front, back);
    assert s[|front| + 1..] == back;
    DropNumberAt(s, |front|);
    StripAfterStripRight(rest);
    ParseNonBlankLine(line);
  }

  /** A suffix of a line without "." holds no "." either. */
  lemma NoDotInSuffix(p: string, k: nat)
    requires k <= |p| && Find(p, ".").None?
    ensures Find(p[k..], ".").None?
  {
    var q := p[k..];
    forall j | 0 <= j && j + 1 <= |q| ensures !OccursAt(q, ".", j) {
      assert q[j..j + 1] == p[k + j..k + j + 1];
      assert !OccursAt(p, ".", k + j);
    }
  }

  /** The first "." of "<number>. <body>" is the one after the number. */
  lemma DotAfterNumber(n: nat, body: string)
    ensures Find(Decimal(n) + ". " + body, ".") == Some(|Decimal(n)|)
  {
    var d := Decimal(n);
    var line := d + ". " + body;
    assert line[|d|..|d| + 1] == ".";
    forall j | 0 <= j < |d| ensures !OccursAt(line, ".", j) {
      assert line[j..j + 1] == [d[j]];
    }
    FindIs(line, ".", |d|);
  }

  /** Dropping the number of "<number>. <body>" leaves the body. */
  lemma DropNumberOfNumbered(n: nat, body: string)
    requires IsStripped(body)
    ensures DropNumber(Decimal(n) + ". " + body) == body
  {
    var d := Decimal(n);
    var line := d + ". " + body;
    DotAfterNumber(n, body);
    assert line[|d| + 1..] == " " + body;
    StripSpacePrefix(" ", body);
    StripStripped(body);
  }

  /** "<number>. <body>" has no whitespace at its ends. */
  lemma NumberedStripped(n: nat, body: string)
    requires body != [] && IsStripped(body)
    ensures Strip(Decimal(n) + ". " + body) == Decimal(n) + ". " + body
  {
    var d := Decimal(n);
    var line := d + ". " + body;
    assert line[0] == d[0] && line[|line| - 1] == body[|body| - 1];
    StripStripped(line);
  }

  /**
   * The title is the text before the first " - " and the reason all of the
   * text after it, each stripped: a later " - " stays inside the reason.
   */
  lemma SplitAtFirstSeparator(t: string, r: string)
    requires SeparatorFree(t)
    ensures SplitTitle(t + Separator + r) == MovieRecommendation(Strip(t), Strip(r))
  {
    var body := t + Separator + r;
    SeparatorAfterTitle(t, r);
    assert body[..|t|] == t && body[|t| + |Separator|..] == r;
    SplitTitleAt(body, |t|);
  }

  /** "title - reason" splits back into its title and reason. */
  lemma SplitTitleOfPlain(rec: MovieRecommendation)
    requires Plain(rec)
    ensures SplitTitle(rec.title + Separator + rec.reason) == rec
  {
    SplitAtFirstSeparator(rec.title, rec.reason);
    StripStripped(rec.title);
    StripStripped(rec.reason);
  }

  /** A line in the requested format parses back to the recommendation it was made from. */
  lemma FormatThenParseLine(n: nat, rec: MovieRecommendation)
    requires Plain(rec)
    ensures ParseLine(FormatLine(n, rec)) == Some(rec)
  {
    var t, r := rec.title, rec.reason;
    var body := t + Separator + r;
    assert FormatLine(n, rec) == Decimal(n) + ". " + body;
    assert body[0] == t[0] && body[|body| - 1] == r[|r| - 1];
    NumberedStripped(n, body);
    DropNumberOfNumbered(n, body);
    SplitTitleOfPlain(rec);
  }

  lemma FormatLineNoBreak(n: nat, rec: MovieRecommendation)
    requires Plain(rec)
    ensures NoLineBreak(FormatLine(n, rec))
  {
    var d := Decimal(n);
    var line := FormatLine(n, rec);
    forall k | 0 <= k < |line| ensures !IsLineBreak(line[k]) {
      if k < |d| {
        assert line[k] == d[k];
      } else if k < |d| + 2 {
        assert line[k] in ". ";
      } else if k < |d| + 2 + |rec.title| {
        assert line[k] == rec.title[k - |d| - 2];
      } else if k < |d| + 5 + |rec.title| {
        assert line[k] in Separator;
      } else {
        assert line[k] == rec.reason[k - |d| - 5 - |rec.title|];
      }
    }
  }

  lemma ParseLinesCons(line: string, rest: seq<string>, rec: MovieRecommendation)
    requires ParseLine(line) == Some(rec)
    ensures ParseLines([line] + rest) == [rec] + ParseLines(rest)
  {
    ParseLinesAppend([line], rest);
    ParseOneLine(line);
  }

  lemma {:induction false} FormatThenParseLines(recs: seq<MovieRecommendation>, n: nat)
    requires forall k :: 0 <= k < |recs| ==> Plain(recs[k])
    ensures ParseLines(FormatLines(recs, n)) == recs
  {
    if recs != [] {
      var line, rest := FormatLine(n, recs[0]), FormatLines(recs[1..], n + 1);
      assert FormatLines(recs, n) == [line] + rest;
      FormatThenParseLine(n, recs[0]);
      ParseLinesCons(line, rest, recs[0]);
      FormatThenParseLines(recs[1..], n + 1);
      assert recs == [recs[0]] + recs[1..];
    }
  }

  /**
   * A reply written exactly in the requested numbered format parses back to
   * the recommendations it lists, in order; reasons may themselves hold " - ".
   */
  lemma ReplyRoundTrip(recs: seq<MovieRecommendation>)
    requires forall k :: 0 <= k < |recs| ==> Plain(recs[k])
    ensures ParseReply(Some(FormatReply(recs))) == recs
  {
    var lines := FormatLines(recs, 1);
    forall k | 0 <= k < |lines| ensures NoLineBreak(lines[k]) {
      FormatLinesAt(recs, 1, k);
      FormatLineNoBreak(1 + k, recs[k]);
    }
    SplitJoinLines(lines);
    FormatThenParseLines(recs, 1);
  }

  lemma {:induction false} FormatLinesAt(recs: seq<MovieRecommendation>, n: nat, k: nat)
    requires k < |recs|
    ensures FormatLines(recs, n)[k] == FormatLine(n + k, recs[k])
  {
    if k > 0 {
      FormatLinesAt(recs[1..], n + 1, k - 1);
    }
  }

  /** A non-blank line with neither "." nor " - " becomes a title with an empty reason. */
  lemma FallbackWholeLine(raw: string)
    requires Strip(raw) != []
    requires Find(Strip(raw), ".").None? && Find(Strip(raw), Separator).None?
    ensures ParseLine(raw) == Some(MovieRecommendation(Strip(raw), ""))
  {
  }

  /** A numbered line without " - " gives its text after the number as the title, with an empty reason. */
  lemma NumberedTitleOnly(n: nat, title: string)
    requires IsStripped(title) && Find(title, Separator).None?
    ensures ParseLine(Decimal(n) + ". " + title) == Some(MovieRecommendation(title, ""))
  {
    var d := Decimal(n);
    forall j | 0 <= j && j + 1 <= |d| ensures !OccursAt(d, ".", j) {
      assert d[j..j + 1] == [d[j]];
    }
    assert d + ". " + title == d + "." + (" " + title);
    TextBeforeFirstDotIgnored(d, " " + title);
    StripSpacePrefix(" ", title);
    StripStripped(title);
    SplitTitleWhole(title);
  }

  /**
   * Everything up to the first "." goes, whatever precedes it: a chatty
   * sentence ending in "." yields a recommendation with an empty title.
   */
  lemma SentenceLineGivesEmptyTitle()
    ensures ParseLine("Enjoy.") == Some(MovieRecommendation("", ""))
  {
    var line := "Enjoy.";
    StripStripped(line);
    assert line[5..6] == ".";
    forall j | 0 <= j < 5 ensures !OccursAt(line, ".", j) {
      assert line[j..j + 1] == [line[j]];
    }
    FindIs(line, ".", 5);
    assert line[6..] == "";
  }
}
