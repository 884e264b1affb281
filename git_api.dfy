/** The pure helpers of `GitApi` in lib/git_api.rb: the CSV header row, the
    border width around a section title, the CSV row of a scalar value and the
    choice of view. The HTTP calls and the console output around them are not
    part of this model. */
module GitApi {
  import RubyText
  import opened Wrappers

  // ---------------------------------------------------------------------------
  // header_row
  // ---------------------------------------------------------------------------

  /** Characters `gsub(/[^a-zA-Z0-9 ]/, "")` keeps. */
  predicate Kept(c: char)
  {
    RubyText.IsUpper(c) || RubyText.IsLower(c) || RubyText.IsDigit(c) || c == ' '
  }

  /** Characters a normalised heading may hold. */
  predicate HeadingChar(c: char)
  {
    RubyText.IsLower(c) || RubyText.IsDigit(c) || c == '_'
  }

  /** `gsub(/[^a-zA-Z0-9 ]/, "")`: every other character is deleted. */
  function KeepAlnumSpace(s: string): (r: string)
    ensures |r| <= |s|
    ensures forall i :: 0 <= i < |r| ==> Kept(r[i]) && r[i] in s
  {
    if s == [] then []
    else (if Kept(s[0]) then [s[0]] else []) + KeepAlnumSpace(s[1..])
  }

  /** The deletion keeps every occurrence of a kept character, and nothing
      else. */
  lemma {:induction false} KeepAlnumSpaceCounts(s: string)
    ensures forall c :: multiset(KeepAlnumSpace(s))[c] == (if Kept(c) then multiset(s)[c] else 0)
  {
    if s != [] {
      KeepAlnumSpaceCounts(s[1..]);
      assert s == [s[0]] + s[1..];
    }
  }

  /** `gsub(" ", "_")`. */
  function SpaceToUnderscore(s: string): (r: string)
    ensures |r| == |s|
    ensures forall i :: 0 <= i < |s| ==> r[i] == (if s[i] == ' ' then '_' else s[i])
  {
    seq(|s|, i requires 0 <= i < |s| => if s[i] == ' ' then '_' else s[i])
  }

  /** One heading as `header_row` normalises it: downcase, delete what is not
      an ASCII letter, digit or space, then turn spaces into underscores. Only
      lower-case letters, digits and underscores remain. */
  function Normalize(h: string): (r: string)
    ensures forall i :: 0 <= i < |r| ==> HeadingChar(r[i])
  {
    var d := RubyText.Downcase(h);
    var k := KeepAlnumSpace(d);
    assert forall i :: 0 <= i < |k| ==> !RubyText.IsUpper(k[i]) by {
      forall i | 0 <= i < |k| ensures !RubyText.IsUpper(k[i]) {
        var c := k[i];
        assert c in d;
        var j :| 0 <= j < |d| && d[j] == c;
        assert d[j] == RubyText.DowncaseChar(h[j]);
      }
    }
    SpaceToUnderscore(k)
  }

  /** What one character of a heading becomes, read off the three rewrites
      character by character. */
  function NormalizeChar(c: char): string
  {
    if RubyText.IsUpper(c) then [RubyText.DowncaseChar(c)]
    else if RubyText.IsLower(c) || RubyText.IsDigit(c) then [c]
    else if c == ' ' then ['_']
    else []
  }

  /** A heading rewritten one character at a time. */
  function NormalizeEach(h: string): string
  {
    if h == [] then [] else NormalizeChar(h[0]) + NormalizeEach(h[1..])
  }

  /** The three whole-string rewrites of `header_row` agree with rewriting the
      heading character by character. */
  lemma {:induction false} NormalizeByCharacter(h: string)
    ensures Normalize(h) == NormalizeEach(h)
  {
    if h != [] {
      NormalizeByCharacter(h[1..]);
      var d := RubyText.Downcase(h);
      assert d == [RubyText.DowncaseChar(h[0])] + RubyText.Downcase(h[1..]);
      assert d[1..] == RubyText.Downcase(h[1..]);
      var k := KeepAlnumSpace(d);
      assert k == (if Kept(d[0]) then [d[0]] else []) + KeepAlnumSpace(RubyText.Downcase(h[1..]));
      SpaceToUnderscoreAppend(if Kept(d[0]) then [d[0]] else [], KeepAlnumSpace(RubyText.Downcase(h[1..])));
    }
  }

  lemma SpaceToUnderscoreAppend(a: string, b: string)
    ensures SpaceToUnderscore(a + b) == SpaceToUnderscore(a) + SpaceToUnderscore(b)
  {
  }

  /** The headings, normalised. */
  function NormalizeAll(headings: seq<string>): (r: seq<string>)
    ensures |r| == |headings|
  {
    seq(|headings|, i requires 0 <= i < |headings| => Normalize(headings[i]))
  }

  /** The header line: the normalised headings joined by `,`, then a newline. */
  function HeaderText(headings: seq<string>): string
  {
    RubyText.Join(NormalizeAll(headings), ',') + "\n"
  }

  /** `String#chop`: drop the last character, or a final "\r\n" as a whole. */
  function Chop(s: string): (r: string)
    ensures r <= s
    ensures |s| == 0 ==> r == s
    ensures |s| > 0 ==> |r| == |s| - 1 || (|r| == |s| - 2 && s[|s| - 2..] == "\r\n")
    ensures |s| >= 2 && s[|s| - 2..] == "\r\n" ==> |r| == |s| - 2
  {
    if |s| >= 2 && s[|s| - 2..] == "\r\n" then s[..|s| - 2]
    else if |s| >= 1 then s[..|s| - 1]
    else s
  }

  /** Each part followed by a `,`, as the loop of `header_row` appends them. */
  function Terminated(parts: seq<string>): string
  {
    if parts == [] then [] else Terminated(parts[..|parts| - 1]) + parts[|parts| - 1] + [',']
  }

  /** Joining one more part adds a separator and the part. */
  lemma {:induction false} JoinSnoc<T>(parts: seq<seq<T>>, last: seq<T>, sep: T)
    requires parts != []
    ensures RubyText.Join(parts + [last], sep) == RubyText.Join(parts, sep) + [sep] + last
  {
    if |parts| > 1 {
      JoinSnoc(parts[1..], last, sep);
      assert (parts + [last])[1..] == parts[1..] + [last];
    }
  }

  /** The appended text is the joined text plus a final comma. */
  lemma {:induction false} TerminatedIsJoined(parts: seq<string>)
    requires parts != []
    ensures Terminated(parts) == RubyText.Join(parts, ',') + [',']
  {
    var init := parts[..|parts| - 1];
    assert parts == init + [parts[|parts| - 1]];
    if init != [] {
      TerminatedIsJoined(init);
      JoinSnoc(init, parts[|parts| - 1], ',');
    }
  }

  /** `header_row(arr)`: append each normalised heading and a comma, chop the
      last comma and end the line. */
  method HeaderRow(arr: seq<string>) returns (r: string)
    ensures r == HeaderText(arr)
  {
    ghost var parts := NormalizeAll(arr);
    var str := "";
    if |arr| > 0 {
      for i := 0 to |arr|
        invariant str == Terminated(parts[..i])
      {
        assert parts[..i + 1][..i] == parts[..i];
        str := str + Normalize(arr[i]) + ",";
      }
      assert parts[..|arr|] == parts;
      TerminatedIsJoined(parts);
      ChopComma(RubyText.Join(parts, ','));
    }
    r := Chop(str) + "\n";
  }

  /** `chop` takes back a final comma. */
  lemma ChopComma(s: string)
    ensures Chop(s + [',']) == s
  {
    var t := s + [','];
    assert t[|t| - 1] == ',';
    assert t[..|t| - 1] == s;
  }

  /** `header_row([])` is a bare newline. */
  lemma EmptyHeader()
    ensures HeaderText([]) == "\n"
  {
  }

  /** Number of commas in a text. */
  function Commas(s: string): nat
  {
    multiset(s)[',']
  }

  lemma {:induction false} JoinedCommas(parts: seq<string>)
    requires parts != []
    requires forall i :: 0 <= i < |parts| ==> ',' !in parts[i]
    ensures Commas(RubyText.Join(parts, ',')) == |parts| - 1
  {
    if |parts| > 1 {
      JoinedCommas(parts[1..]);
      var rest := RubyText.Join(parts[1..], ',');
      assert RubyText.Join(parts, ',') == parts[0] + [','] + rest;
      assert multiset(parts[0])[','] == 0;
    } else {
      assert multiset(parts[0])[','] == 0;
    }
  }

  /** An n-heading header holds exactly n - 1 commas: one between each pair of
      headings and none inside a heading. */
  lemma HeaderCommas(headings: seq<string>)
    requires headings != []
    ensures Commas(HeaderText(headings)) == |headings| - 1
  {
    var parts := NormalizeAll(headings);
    forall i | 0 <= i < |parts| ensures ',' !in parts[i] {
      assert !HeadingChar(',');
    }
    JoinedCommas(parts);
    assert multiset(HeaderText(headings)) == multiset(RubyText.Join(parts, ',')) + multiset("\n");
  }

  /** Characters of headings joined by commas. */
  predicate JoinedChar(c: char)
  {
    HeadingChar(c) || c == ','
  }

  lemma {:induction false} JoinedCharset(parts: seq<string>)
    requires forall i, j :: 0 <= i < |parts| && 0 <= j < |parts[i]| ==> HeadingChar(parts[i][j])
    ensures forall k :: 0 <= k < |RubyText.Join(parts, ',')| ==> JoinedChar(RubyText.Join(parts, ',')[k])
  {
    if |parts| > 1 {
      JoinedCharset(parts[1..]);
      var s := RubyText.Join(parts, ',');
      var rest := RubyText.Join(parts[1..], ',');
      assert s == parts[0] + [','] + rest;
      forall k | 0 <= k < |s| ensures JoinedChar(s[k]) {
        if k < |parts[0]| {
          assert s[k] == parts[0][k];
        } else if k > |parts[0]| {
          assert s[k] == rest[k - |parts[0]| - 1];
        }
      }
    }
  }

  /** The header holds lower-case letters, digits, underscores and commas,
      and ends with its only newline. */
  lemma HeaderCharset(headings: seq<string>)
    ensures var r := HeaderText(headings);
      |r| > 0 && r[|r| - 1] == '\n'
      && forall k :: 0 <= k < |r| - 1 ==> JoinedChar(r[k])
  {
    var parts := NormalizeAll(headings);
    forall i, j | 0 <= i < |parts| && 0 <= j < |parts[i]| ensures HeadingChar(parts[i][j]) {
      assert parts[i] == Normalize(headings[i]);
    }
    JoinedCharset(parts);
    var r := HeaderText(headings);
    assert r[..|r| - 1] == RubyText.Join(parts, ',');
    forall k | 0 <= k < |r| - 1 ensures JoinedChar(r[k]) {
      assert r[k] == r[..|r| - 1][k];
    }
  }

  // ---------------------------------------------------------------------------
  // border_size
  // ---------------------------------------------------------------------------

  /** `border_size(title)`: `(80 - " title ".length) / 2`, Ruby's floor
      division. Two borders, the title and its two spaces fill 79 or 80
      columns; the border is negative once the title passes 78 characters. */
  function BorderSize(title: string): (b: int)
    ensures 79 <= 2 * b + |title| + 2 <= 80
    ensures b >= 0 <==> |title| <= 78
  {
    (80 - (|title| + 2)) / 2
  }

  /** `"#" * n`. */
  function Repeat(c: char, n: nat): (r: string)
    ensures |r| == n && forall i :: 0 <= i < n ==> r[i] == c
  {
    if n == 0 then [] else Repeat(c, n - 1) + [c]
  }

  /** The section banner `border + " " + title + " " + border`; None when
      `"#" * border` raises because the border is negative. */
  function Banner(title: string): (r: Option<string>)
    ensures r.None? <==> |title| > 78
  {
    var b := BorderSize(title);
    if b < 0 then None
    else
      var border := Repeat('#', b);
      Some(border + " " + title + " " + border)
  }

  /** A title of at most 78 characters gets a banner 79 or 80 columns wide,
      centred on the title between runs of `#`. */
  lemma BannerWidth(title: string)
    requires |title| <= 78
    ensures Banner(title).Some?
    ensures |Banner(title).value| == 79 || |Banner(title).value| == 80
    ensures var b, line := BorderSize(title), Banner(title).value;
      && line[b + 1..b + 1 + |title|] == title
      && line[b] == ' ' && line[b + 1 + |title|] == ' '
      && (forall i :: 0 <= i < |line| && (i < b || i > b + 1 + |title|) ==> line[i] == '#')
  {
    var b := BorderSize(title);
    var border := Repeat('#', b);
    var line := border + " " + title + " " + border;
    assert Banner(title) == Some(line);
    assert line[b + 1..b + 1 + |title|] == title;
  }

  // ---------------------------------------------------------------------------
  // create_csv_row
  // ---------------------------------------------------------------------------

  /** The scalar values a row cell can be: a String, an Integer, true/false or
      nil. */
  datatype Scalar = Text(s: string) | Int(i: int) | Bool(b: bool) | Nil

  /** `to_s` of a non-String scalar. */
  function ToS(d: Scalar): string
  {
    match d
    case Text(s) => s
    case Int(i) => RubyText.IntToS(i)
    case Bool(b) => if b then "true" else "false"
    case Nil => ""
  }

  /** `create_csv_row` for a String (stripped) or another scalar (`to_s`),
      ended by a newline. */
  function CreateCsvRow(d: Scalar): (r: string)
    ensures |r| > 0 && r[|r| - 1] == '\n'
  {
    match d
    case Text(s) => RubyText.Strip(s) + "\n"
    case _ => ToS(d) + "\n"
  }

  /** The line of a String is the string without its surrounding whitespace
      and NULs: a contiguous piece of it, neither starting nor ending with one,
      with only such characters cut on either side. */
  lemma CsvRowOfText(s: string)
    ensures var r := CreateCsvRow(Text(s));
      var body, k := r[..|r| - 1], RubyText.LeadCut(s);
      && k + |body| <= |s| && s[k..k + |body|] == body
      && (forall i :: 0 <= i < k ==> RubyText.IsStripped(s[i]))
      && (forall i :: k + |body| <= i < |s| ==> RubyText.IsStripped(s[i]))
      && (body == [] || (!RubyText.IsStripped(body[0]) && !RubyText.IsStripped(body[|body| - 1])))
  {
    RubyText.StripSpec(s);
    RubyText.StripEnds(s);
    var r := CreateCsvRow(Text(s));
    assert r[..|r| - 1] == RubyText.Strip(s);
  }

  /** The line of an Integer reads back, with `to_i`, as that integer. */
  lemma CsvRowOfInt(i: int)
    ensures var r := CreateCsvRow(Int(i));
      RubyText.ToI(r[..|r| - 1]) == i
  {
    RubyText.IntToSRoundTrip(i);
    var r := CreateCsvRow(Int(i));
    assert r[..|r| - 1] == RubyText.IntToS(i);
  }

  // ---------------------------------------------------------------------------
  // display
  // ---------------------------------------------------------------------------

  datatype View = LongView | ShortView | MediumView

  /** `display(form)`: "long" and "short" pick their views, anything else the
      medium one. */
  function Display(form: string): (v: View)
    ensures v == LongView <==> form == "long"
    ensures v == ShortView <==> form == "short"
    ensures v == MediumView <==> form != "long" && form != "short"
  {
    if form == "long" then LongView
    else if form == "short" then ShortView
    else MediumView
  }
}
