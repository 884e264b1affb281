/** The `display_heading` Liquid tag: it turns a snake_case name such as
    `pull_requests_by_the_team` into a heading, capitalizing every piece
    except a short list of stop words, each piece followed by one space. */
module DisplayHeader {
  import opened RubyText

  /** The words the tag leaves as they are (`@@not_capitalized`). */
  const StopWords: seq<string> := ["or", "and", "the", "a", "an", "for", "to", "at", "by", "nor"]

  /** How one piece is shown: a stop word (matched exactly, case included)
      unchanged, any other piece with `String#capitalize`. */
  function Word(w: string): (r: string)
    ensures |r| == |w|
    ensures w in StopWords ==> r == w
    ensures w !in StopWords && |w| > 0 ==>
      r[0] == UpcaseChar(w[0]) && forall i :: 1 <= i < |w| ==> r[i] == DowncaseChar(w[i])
  {
    if w in StopWords then w
    else
      var r := Capitalize(w);
      assert forall i :: 1 <= i < |w| ==> r[i] == r[1..][i - 1] && w[1..][i - 1] == w[i];
      r
  }

  /** Every piece shown, in order. */
  function Words(pieces: seq<string>): (r: seq<string>)
    ensures |r| == |pieces| && forall i :: 0 <= i < |pieces| ==> r[i] == Word(pieces[i])
  {
    seq(|pieces|, i requires 0 <= i < |pieces| => Word(pieces[i]))
  }

  /** Words one after the other, each followed by one space. */
  function Spaced(words: seq<string>): string
  {
    if words == [] then []
    else Spaced(words[..|words| - 1]) + words[|words| - 1] + " "
  }

  /** What `render` produces from the tag's text. */
  function RenderText(text: string): string
  {
    Spaced(Words(Split(text, '_')))
  }

  /** One more piece adds its shown form and a space. */
  lemma RenderStep(pieces: seq<string>, i: nat)
    requires i < |pieces|
    ensures Spaced(Words(pieces[..i + 1])) == Spaced(Words(pieces[..i])) + Word(pieces[i]) + " "
  {
    var ws := Words(pieces[..i + 1]);
    assert ws[..i] == Words(pieces[..i]);
  }

  /** The Liquid tag object; `text` is the tag's markup, overwritten by every
      `render`. */
  class Display {
    var text: string

    constructor(text: string)
      ensures this.text == text
    {
      this.text := text;
    }

    /** `render`: split on underscores, show each piece and a space, keep the
        result as the new text and return it. */
    method Render() returns (r: string)
      modifies this
      ensures r == RenderText(old(text))
      ensures text == r
    {
      var c := Split(text, '_');
      var str := "";
      for i := 0 to |c|
        invariant str == Spaced(Words(c[..i]))
      {
        RenderStep(c, i);
        var w := c[i];
        if w in StopWords {
          str := str + w + " ";
        } else {
          str := str + Capitalize(w) + " ";
        }
      }
      assert c[..|c|] == c;
      text := str;
      r := str;
    }
  }

  // ---------------------------------------------------------------------------
  // Properties of the rendered heading
  // ---------------------------------------------------------------------------

  /** The summed length of some strings. */
  function TotalLength(parts: seq<string>): nat
  {
    if parts == [] then 0 else TotalLength(parts[..|parts| - 1]) + |parts[|parts| - 1]|
  }

  /** One space per word on top of the words themselves. */
  lemma {:induction false} SpacedLength(words: seq<string>)
    ensures |Spaced(words)| == TotalLength(words) + |words|
  {
    if words != [] {
      SpacedLength(words[..|words| - 1]);
    }
  }

  /** Showing the pieces keeps their lengths. */
  lemma {:induction false} WordsLength(pieces: seq<string>)
    ensures TotalLength(Words(pieces)) == TotalLength(pieces)
  {
    if pieces != [] {
      var n := |pieces| - 1;
      WordsLength(pieces[..n]);
      assert Words(pieces)[..n] == Words(pieces[..n]);
    }
  }

  /** The heading's length: the text's pieces and one space for each. */
  lemma RenderLength(text: string)
    ensures var pieces := Split(text, '_');
      |RenderText(text)| == TotalLength(pieces) + |pieces|
  {
    var pieces := Split(text, '_');
    SpacedLength(Words(pieces));
    WordsLength(pieces);
  }

  /** The first word comes first. */
  lemma {:induction false} SpacedCons(words: seq<string>)
    requires words != []
    ensures Spaced(words) == words[0] + " " + Spaced(words[1..])
    decreases |words|
  {
    var n := |words|;
    if n > 1 {
      var init := words[..n - 1];
      SpacedCons(init);
      var rest := words[1..];
      assert init[1..] == rest[..|rest| - 1] && rest[|rest| - 1] == words[n - 1];
      assert Spaced(rest) == Spaced(init[1..]) + words[n - 1] + " ";
    } else {
      assert words[..0] == [] && words[1..] == [];
    }
  }

  /** Showing a piece adds no space to it. */
  lemma WordHasNoSpace(w: string)
    requires ' ' !in w
    ensures ' ' !in Word(w)
  {
    var r := Word(w);
    forall i | 0 <= i < |r| ensures r[i] != ' ' {
      assert w[i] != ' ';
    }
  }

  /** Read back on spaces, words without spaces come out one by one, in order,
      and then the empty field after the last space. */
  lemma {:induction false} SpacedFields(words: seq<string>)
    requires forall i :: 0 <= i < |words| ==> ' ' !in words[i]
    ensures Fields(Spaced(words), ' ') == words + [[]]
    decreases |words|
  {
    if words != [] {
      SpacedCons(words);
      FieldsAfterHead(words[0], ' ', Spaced(words[1..]));
      SpacedFields(words[1..]);
      assert words == [words[0]] + words[1..];
    }
  }

  /** The heading of a text whose pieces hold no space, read back on spaces:
      every piece shown, in order, each followed by exactly one space, with
      nothing dropped, added or reordered. */
  lemma RenderFields(text: string)
    requires forall i :: 0 <= i < |Split(text, '_')| ==> ' ' !in Split(text, '_')[i]
    ensures Fields(RenderText(text), ' ') == Words(Split(text, '_')) + [[]]
  {
    var pieces := Split(text, '_');
    forall i | 0 <= i < |pieces| ensures ' ' !in Words(pieces)[i] {
      WordHasNoSpace(pieces[i]);
    }
    SpacedFields(Words(pieces));
  }

  /** Words without underscores give a line without them. */
  lemma {:induction false} SpacedHasNoUnderscore(words: seq<string>)
    requires forall i :: 0 <= i < |words| ==> '_' !in words[i]
    ensures '_' !in Spaced(words)
  {
    if words != [] {
      SpacedHasNoUnderscore(words[..|words| - 1]);
    }
  }

  /** The heading holds no underscore: every one became a piece break. */
  lemma RenderHasNoUnderscore(text: string)
    ensures '_' !in RenderText(text)
  {
    var pieces := Split(text, '_');
    var fields := Fields(text, '_');
    assert pieces == fields[..|pieces|];
    forall i | 0 <= i < |pieces| ensures '_' !in Words(pieces)[i] {
      assert pieces[i] == fields[i];
      var w := pieces[i];
      forall k | 0 <= k < |w| ensures Word(w)[k] != '_' {
        assert w[k] != '_';
      }
    }
    SpacedHasNoUnderscore(Words(pieces));
  }

  /** No stop word is longer than three characters. */
  lemma StopWordsAreShort(w: string)
    requires w in StopWords
    ensures |w| <= 3
  {
  }

  /** One word, spaced. */
  lemma SpacedSingle(a: string)
    ensures Spaced([a]) == a + " "
  {
    var ws := [a];
    assert ws[..0] == [];
  }

  /** Two words, spaced. */
  lemma SpacedPair(a: string, b: string)
    ensures Spaced([a, b]) == a + " " + b + " "
  {
    var ws := [a, b];
    assert ws[..1] == [a];
    SpacedSingle(a);
  }

  /** `a_b` has the pieces `a` and `b`. */
  lemma SplitAB()
    ensures Split("a_b", '_') == ["a", "b"]
  {
    SplitJoinedPair("a", "b", '_');
    assert "a" + ['_'] + "b" == "a_b";
  }

  /** The stop word `a` stays, `b` is capitalized. */
  lemma WordsAB()
    ensures Words(["a", "b"]) == ["a", "B"]
  {
    assert Word("a") == "a" by {
      assert StopWords[3] == "a";
    }
    assert Word("b") == "B" by {
      if "b" in StopWords { StopWordsAreShort("b"); }
    }
  }

  /** Example: the first render of `a_b`. */
  lemma RenderAB()
    ensures RenderText("a_b") == "a B "
  {
    SplitAB();
    WordsAB();
    SpacedPair("a", "B");
  }

  /** The first heading of `a_b`, shown again as one piece. */
  lemma WordOfHeading()
    ensures Word("a B ") == "A b "
  {
    var t := "a B ";
    if t in StopWords { StopWordsAreShort(t); }
    var d := Downcase(t[1..]);
    assert d[0] == ' ' && d[1] == 'b' && d[2] == ' ';
  }

  /** The first heading of `a_b` holds no underscore: one piece. */
  lemma SplitOfHeading()
    ensures Split("a B ", '_') == ["a B "]
  {
    FieldsWithoutSep("a B ", '_');
  }

  /** Example: because `render` overwrites the text, a second render of the same tag
      starts from the first one's result and gives a different heading. */
  lemma RenderTwice()
    ensures RenderText(RenderText("a_b")) == "A b  "
  {
    RenderAB();
    SplitOfHeading();
    WordOfHeading();
    var one: seq<string> := ["a B "];
    assert Words(one) == ["A b "];
    SpacedSingle("A b ");
  }
}
