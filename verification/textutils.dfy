/**
 The text utilities (textutils.py): punctuation stripping, stop-word
 filtering of queries, and the word transform of the document tokenizer.
 Strings are sequences of Unicode code points, as in Python 3.
 */
module TextUtils {
  import opened Sequences

  /** Python's `string.punctuation`: the 32 ASCII punctuation characters. */
  const Punctuation: string := "!\"#$%&'()*+,-./:;<=>?@[\\]^_`{|}~"

  /** Membership in `Punctuation`, as the four ASCII ranges it consists of. */
  predicate IsPunctuation(c: char)
  {
    || ('!' <= c <= '/')
    || (':' <= c <= '@')
    || ('[' <= c <= '`')
    || ('{' <= c <= '~')
  }

  /** The ranges of `IsPunctuation` hold exactly the characters of `Punctuation`. */
  lemma PunctuationRanges(c: char)
    ensures IsPunctuation(c) <==> c in Punctuation
  {
    if IsPunctuation(c) {
      var k := if c <= '/' then c as int - '!' as int
               else if c <= '@' then c as int - ':' as int + 15
               else if c <= '`' then c as int - '[' as int + 22
               else c as int - '{' as int + 28;
      assert Punctuation[k] == c;
    }
  }

  /** `remove_punctuation`: deletes every punctuation character and keeps the rest in order. */
  function RemovePunctuation(s: string): (r: string)
    ensures forall i :: 0 <= i < |r| ==> !IsPunctuation(r[i])
    ensures |r| <= |s|
  {
    if s == [] then []
    else if IsPunctuation(s[0]) then RemovePunctuation(s[1..])
    else [s[0]] + RemovePunctuation(s[1..])
  }

  /** Every other character is kept, in order and with its multiplicity. */
  lemma {:induction false} RemovePunctuationKeepsOthers(s: string)
    ensures IsSubsequence(RemovePunctuation(s), s)
    ensures forall c :: !IsPunctuation(c) ==> multiset(RemovePunctuation(s))[c] == multiset(s)[c]
  {
    if s != [] {
      var rest := RemovePunctuation(s[1..]);
      RemovePunctuationKeepsOthers(s[1..]);
      assert s == [s[0]] + s[1..];
      if !IsPunctuation(s[0]) {
        assert ([s[0]] + rest)[1..] == rest;
      }
    }
  }

  /** Text without punctuation is left unchanged. */
  lemma {:induction false} RemovePunctuationKeepsClean(s: string)
    requires forall i :: 0 <= i < |s| ==> !IsPunctuation(s[i])
    ensures RemovePunctuation(s) == s
  {
    if s != [] {
      assert forall i :: 0 <= i < |s[1..]| ==> s[1..][i] == s[i + 1];
      RemovePunctuationKeepsClean(s[1..]);
      assert s == [s[0]] + s[1..];
    }
  }

  /** Stripping punctuation twice is the same as stripping it once. */
  lemma RemovePunctuationIdempotent(s: string)
    ensures RemovePunctuation(RemovePunctuation(s)) == RemovePunctuation(s)
  {
    RemovePunctuationKeepsClean(RemovePunctuation(s));
  }

  /** Stripping punctuation works character by character, so it distributes over concatenation. */
  lemma {:induction false} RemovePunctuationConcat(a: string, b: string)
    ensures RemovePunctuation(a + b) == RemovePunctuation(a) + RemovePunctuation(b)
  {
    if a != [] {
      assert (a + b)[0] == a[0];
      assert (a + b)[1..] == a[1..] + b;
      RemovePunctuationConcat(a[1..], b);
    } else {
      assert a + b == b;
    }
  }

  /** `stop_words`: the stop list of figure 2.5 of "Introduction to Information Retrieval". */
  const StopWords: seq<string> := [
    "a", "an", "and", "are", "as", "at", "be", "by", "for", "from",
    "has", "he", "in", "is", "it", "its", "of", "on", "that", "the",
    "to", "was", "were", "will", "with"
  ]

  /** The words of `ws` that are not stop words, in order. */
  function FilterStopWords(ws: seq<string>): (r: seq<string>)
    ensures forall i :: 0 <= i < |r| ==> r[i] !in StopWords
    ensures |r| <= |ws|
  {
    if ws == [] then []
    else if ws[0] in StopWords then FilterStopWords(ws[1..])
    else [ws[0]] + FilterStopWords(ws[1..])
  }

  /** The filter keeps every other word, in order and with its multiplicity. */
  lemma {:induction false} FilterKeepsOthers(ws: seq<string>)
    ensures IsSubsequence(FilterStopWords(ws), ws)
    ensures forall w :: w !in StopWords ==> multiset(FilterStopWords(ws))[w] == multiset(ws)[w]
  {
    if ws != [] {
      var rest := FilterStopWords(ws[1..]);
      FilterKeepsOthers(ws[1..]);
      assert ws == [ws[0]] + ws[1..];
      if ws[0] !in StopWords {
        assert ([ws[0]] + rest)[1..] == rest;
      }
    }
  }

  /** A list without stop words passes the filter unchanged. */
  lemma {:induction false} FilterKeepsClean(ws: seq<string>)
    requires forall i :: 0 <= i < |ws| ==> ws[i] !in StopWords
    ensures FilterStopWords(ws) == ws
  {
    if ws != [] {
      assert forall i :: 0 <= i < |ws[1..]| ==> ws[1..][i] == ws[i + 1];
      FilterKeepsClean(ws[1..]);
      assert ws == [ws[0]] + ws[1..];
    }
  }

  /** Words joined by single spaces (the inverse of `str.split(" ")`). */
  function JoinWithSpace(ws: seq<string>): string
    requires |ws| >= 1
  {
    if |ws| == 1 then ws[0] else ws[0] + " " + JoinWithSpace(ws[1..])
  }

  /** Gluing a character onto the first piece is gluing it onto the joined text. */
  lemma {:induction false} JoinWithSpaceCons(c: char, ws: seq<string>)
    requires |ws| >= 1
    ensures JoinWithSpace([[c] + ws[0]] + ws[1..]) == [c] + JoinWithSpace(ws)
  {
    var vs := [[c] + ws[0]] + ws[1..];
    assert |vs| == |ws| && vs[0] == [c] + ws[0];
    if |ws| > 1 {
      assert vs[1..] == ws[1..];
      var t := JoinWithSpace(ws[1..]);
      assert JoinWithSpace(vs) == vs[0] + " " + t;
      assert ([c] + ws[0]) + " " + t == [c] + (ws[0] + " " + t);
    }
  }

  /**
   `str.split(" ")`: cuts at every single space. Repeated, leading or
   trailing spaces give empty pieces, and the empty string gives one empty
   piece.
   */
  function SplitOnSpace(s: string): (r: seq<string>)
    ensures |r| >= 1
    ensures forall i :: 0 <= i < |r| ==> ' ' !in r[i]
    ensures JoinWithSpace(r) == s
  {
    if s == [] then [""]
    else
      var rest := SplitOnSpace(s[1..]);
      if s[0] == ' ' then
        assert ([""] + rest)[1..] == rest;
        assert s == "" + " " + s[1..];
        [""] + rest
      else
        JoinWithSpaceCons(s[0], rest);
        assert s == [s[0]] + s[1..];
        [[s[0]] + rest[0]] + rest[1..]
  }

  /** Joining pieces without spaces and splitting again gives the pieces back. */
  lemma {:induction false} SplitJoinRoundTrip(ws: seq<string>)
    requires |ws| >= 1 && forall i :: 0 <= i < |ws| ==> ' ' !in ws[i]
    ensures SplitOnSpace(JoinWithSpace(ws)) == ws
    decreases |ws|, |ws[0]|
  {
    var w := ws[0];
    if w == [] {
      if |ws| > 1 {
        assert JoinWithSpace(ws) == [' '] + JoinWithSpace(ws[1..]);
        assert forall i :: 0 <= i < |ws[1..]| ==> ws[1..][i] == ws[i + 1];
        SplitJoinRoundTrip(ws[1..]);
        assert ws == [""] + ws[1..];
      } else {
        assert ws == [""];
      }
    } else {
      var vs := [w[1..]] + ws[1..];
      assert w[1..] == vs[0] && ws[1..] == vs[1..];
      forall k | 0 <= k < |w[1..]|
        ensures w[1..][k] != ' '
      {
        assert w[1..][k] == w[k + 1] && w[k + 1] in w;
      }
      assert forall i :: 1 <= i < |vs| ==> vs[i] == ws[i];
      SplitJoinRoundTrip(vs);
      assert ws[0] == [w[0]] + vs[0];
      JoinWithSpaceCons(w[0], vs);
      assert [[w[0]] + vs[0]] + vs[1..] == ws;
      assert w[0] != ' ' by {
        assert w[0] == ws[0][0];
      }
    }
  }

  /** A query: a string still to be split, or a list of words. */
  datatype Query = Text(text: string) | Words(words: seq<string>)

  /** The words of a query before filtering. */
  function Tokens(q: Query): seq<string>
  {
    match q
    case Text(s) => SplitOnSpace(s)
    case Words(ws) => ws
  }

  /**
   `remove_stop_words`: the query's words without the stop words. The
   stop-word test is exact: case, punctuation and empty words are not
   normalised.
   */
  function RemoveStopWords(q: Query): (r: seq<string>)
    ensures forall i :: 0 <= i < |r| ==> r[i] !in StopWords
    ensures |r| <= |Tokens(q)|
  {
    FilterStopWords(Tokens(q))
  }

  /** The query's other words are all kept, in order and with their multiplicity. */
  lemma RemoveStopWordsKeepsOthers(q: Query)
    ensures IsSubsequence(RemoveStopWords(q), Tokens(q))
    ensures forall w :: w !in StopWords ==> multiset(RemoveStopWords(q))[w] == multiset(Tokens(q))[w]
  {
    FilterKeepsOthers(Tokens(q));
  }

  /** Filtering an already filtered word list changes nothing. */
  lemma RemoveStopWordsIdempotent(q: Query)
    ensures RemoveStopWords(Words(RemoveStopWords(q))) == RemoveStopWords(q)
  {
    FilterKeepsClean(RemoveStopWords(q));
  }

  /** Two spaces in a row leave an empty word, and the empty word is not a stop word. */
  lemma EmptyWordSurvives(a: string, b: string)
    requires ' ' !in a && ' ' !in b
    ensures "" in RemoveStopWords(Text(a + "  " + b))
  {
    var ws := [a, "", b];
    assert JoinWithSpace(ws[2..]) == b;
    assert JoinWithSpace(ws[1..]) == "" + " " + b;
    assert JoinWithSpace(ws) == a + "  " + b;
    SplitJoinRoundTrip(ws);
    assert "" !in StopWords;
    RemoveStopWordsKeepsOthers(Text(a + "  " + b));
    assert multiset(ws)[""] >= 1;
    assert multiset(RemoveStopWords(Text(a + "  " + b)))[""] >= 1;
  }

  /** The stop-word test is case-sensitive: a capitalised stop word is kept. */
  lemma CapitalisedStopWordKept()
    ensures "the" in StopWords && "The" !in StopWords
    ensures RemoveStopWords(Words(["The", "cat"])) == ["The", "cat"]
  {
    assert StopWords[19] == "the";
    assert "The" !in StopWords && "cat" !in StopWords;
    FilterKeepsClean(["The", "cat"]);
  }

  /** Python's `str.isspace` characters, which `str.split()` and `str.strip()` cut at. */
  predicate IsSpace(c: char)
  {
    || c == ' ' || c == '\t' || c == '\n' || c == '\r'
    || c == '\U{000B}' || c == '\U{000C}'
    || ('\U{001C}' <= c <= '\U{001F}')
    || c == '\U{0085}' || c == '\U{00A0}' || c == '\U{1680}'
    || ('\U{2000}' <= c <= '\U{200A}')
    || c == '\U{2028}' || c == '\U{2029}' || c == '\U{202F}' || c == '\U{205F}' || c == '\U{3000}'
  }

  /** A non-empty run of characters that are not whitespace. */
  predicate IsToken(w: string)
  {
    w != [] && NoSpace(w)
  }

  /** Every word of `ws` is a token. */
  predicate AllTokens(ws: seq<string>)
  {
    ws == [] || (IsToken(ws[0]) && AllTokens(ws[1..]))
  }

  /** No character of `w` is whitespace. */
  predicate NoSpace(w: string)
  {
    w == [] || (!IsSpace(w[0]) && NoSpace(w[1..]))
  }

  /** The characters of `s` that are not whitespace, in order. */
  function NonSpace(s: string): string
  {
    if s == [] then [] else if IsSpace(s[0]) then NonSpace(s[1..]) else [s[0]] + NonSpace(s[1..])
  }

  /** The concatenation of a list of words. */
  function Concat(ws: seq<string>): string
  {
    if ws == [] then [] else ws[0] + Concat(ws[1..])
  }

  /** The length of the run of non-whitespace characters that starts `s`. */
  function RunLength(s: string): (n: nat)
    ensures n <= |s|
    ensures NoSpace(s[..n])
    ensures n < |s| ==> IsSpace(s[n])
    ensures s != [] && !IsSpace(s[0]) ==> n >= 1
  {
    if s == [] || IsSpace(s[0]) then 0
    else
      var m := RunLength(s[1..]);
      assert s[..m + 1][1..] == s[1..][..m];
      m + 1
  }

  /** Dropping the whitespace of a string that starts with a run keeps that run in front. */
  lemma {:induction false} NonSpaceOfRun(s: string, n: nat)
    requires n <= |s| && NoSpace(s[..n])
    ensures NonSpace(s) == s[..n] + NonSpace(s[n..])
    decreases n
  {
    if n == 0 {
      assert s[..0] == [] && s[0..] == s;
    } else {
      assert s[..n][0] == s[0];
      assert s[..n][1..] == s[1..][..n - 1];
      assert s[1..][n - 1..] == s[n..];
      assert s[..n] == [s[0]] + s[1..][..n - 1];
      calc {
        NonSpace(s);
        [s[0]] + NonSpace(s[1..]);
        { NonSpaceOfRun(s[1..], n - 1); }
        [s[0]] + (s[1..][..n - 1] + NonSpace(s[n..]));
        { ConcatAssoc([s[0]], s[1..][..n - 1], NonSpace(s[n..])); }
        s[..n] + NonSpace(s[n..]);
      }
    }
  }

  /**
   `line.strip().split()`: the maximal runs of non-whitespace characters.
   Leading and trailing whitespace and repeated separators give no empty
   words, so the `strip` changes nothing.
   */
  function SplitWhitespace(s: string): (r: seq<string>)
    ensures AllTokens(r)
    ensures Concat(r) == NonSpace(s)
    decreases |s|
  {
    if s == [] then []
    else if IsSpace(s[0]) then SplitWhitespace(s[1..])
    else
      var n := RunLength(s);
      var rest := SplitWhitespace(s[n..]);
      NonSpaceOfRun(s, n);
      var r := [s[..n]] + rest;
      assert r[1..] == rest;
      assert Concat(r) == s[..n] + Concat(rest);
      r
  }

  /** The run at the start of a token followed by whitespace or nothing is the token. */
  lemma {:induction false} RunOfToken(w: string, u: string)
    requires NoSpace(w) && (u == [] || IsSpace(u[0]))
    ensures RunLength(w + u) == |w|
    decreases |w|
  {
    if w == [] {
      assert w + u == u;
    } else {
      var t := w + u;
      assert t[0] == w[0];
      assert t[1..] == w[1..] + u;
      RunOfToken(w[1..], u);
    }
  }

  /** Every character of `s` is whitespace. */
  predicate AllSpace(s: string)
  {
    s == [] || (IsSpace(s[0]) && AllSpace(s[1..]))
  }

  /** Whitespace in front of a string does not change how it splits. */
  lemma {:induction false} SplitAfterSpace(g: string, s: string)
    requires AllSpace(g)
    ensures SplitWhitespace(g + s) == SplitWhitespace(s)
    decreases |g|
  {
    if g == [] {
      assert g + s == s;
    } else {
      assert (g + s)[0] == g[0];
      assert (g + s)[1..] == g[1..] + s;
      SplitAfterSpace(g[1..], s);
    }
  }

  /** A token followed by whitespace, or by nothing, splits off as one word. */
  lemma SplitTokenBefore(w: string, u: string)
    requires IsToken(w) && (u == [] || IsSpace(u[0]))
    ensures SplitWhitespace(w + u) == [w] + SplitWhitespace(u)
  {
    var t := w + u;
    RunOfToken(w, u);
    assert t[0] == w[0];
    assert t[..|w|] == w && t[|w|..] == u;
  }

  /** Splitting a token followed by a space and more text splits off the token. */
  lemma SplitWhitespaceToken(w: string, s: string)
    requires IsToken(w)
    ensures SplitWhitespace(w + " " + s) == [w] + SplitWhitespace(s)
  {
    var u := " " + s;
    assert w + " " + s == w + u;
    SplitTokenBefore(w, u);
    assert u[1..] == s;
  }

  /** Each word followed by its gap: `ws[0] + gaps[0] + ws[1] + gaps[1] + ...`. */
  function Layout(ws: seq<string>, gaps: seq<string>): string
    requires |gaps| == |ws|
  {
    if ws == [] then [] else ws[0] + gaps[0] + Layout(ws[1..], gaps[1..])
  }

  /**
   `strip().split()` on any string: leading whitespace, then tokens separated
   by non-empty runs of whitespace, then trailing whitespace, split back into
   exactly those tokens. `StringLayout` shows every string has this shape,
   so together they pin the result on all inputs.
   */
  lemma {:induction false} SplitWhitespaceOfLayout(lead: string, ws: seq<string>, gaps: seq<string>)
    requires AllSpace(lead) && |gaps| == |ws|
    requires forall i :: 0 <= i < |ws| ==> IsToken(ws[i]) && AllSpace(gaps[i])
    requires forall i :: 0 <= i < |ws| - 1 ==> gaps[i] != []
    ensures SplitWhitespace(lead + Layout(ws, gaps)) == ws
    decreases |ws|
  {
    SplitAfterSpace(lead, Layout(ws, gaps));
    if ws != [] {
      var rest := Layout(ws[1..], gaps[1..]);
      var u := gaps[0] + rest;
      assert Layout(ws, gaps) == ws[0] + u;
      if gaps[0] == [] {
        assert |ws| == 1 && rest == [];
        assert u == [];
      } else {
        assert u[0] == gaps[0][0];
      }
      SplitTokenBefore(ws[0], u);
      assert forall i :: 0 <= i < |ws| - 1 ==> ws[1..][i] == ws[i + 1] && gaps[1..][i] == gaps[i + 1];
      SplitWhitespaceOfLayout(gaps[0], ws[1..], gaps[1..]);
      assert ws == [ws[0]] + ws[1..];
    }
  }

  /**
   Every string is leading whitespace followed by the tokens `strip().split()`
   returns, each trailed by a run of whitespace that is non-empty between
   two tokens.
   */
  lemma {:induction false} StringLayout(s: string) returns (lead: string, gaps: seq<string>)
    ensures AllSpace(lead) && |gaps| == |SplitWhitespace(s)|
    ensures forall i :: 0 <= i < |gaps| ==> AllSpace(gaps[i])
    ensures forall i :: 0 <= i < |gaps| - 1 ==> gaps[i] != []
    ensures s == lead + Layout(SplitWhitespace(s), gaps)
    decreases |s|
  {
    if s == [] {
      lead, gaps := [], [];
    } else if IsSpace(s[0]) {
      var l;
      l, gaps := StringLayout(s[1..]);
      lead := [s[0]] + l;
      LayoutAfterSpace(s, l, gaps);
    } else {
      var l, g := StringLayout(s[RunLength(s)..]);
      LayoutAfterToken(s, l, g);
      lead, gaps := [], [l] + g;
      assert lead + Layout(SplitWhitespace(s), gaps) == Layout(SplitWhitespace(s), gaps);
    }
  }

  /** The step of `StringLayout` for a string that starts with whitespace. */
  lemma LayoutAfterSpace(s: string, l: string, gaps: seq<string>)
    requires s != [] && IsSpace(s[0]) && AllSpace(l)
    requires |gaps| == |SplitWhitespace(s[1..])| && s[1..] == l + Layout(SplitWhitespace(s[1..]), gaps)
    ensures AllSpace([s[0]] + l) && SplitWhitespace(s) == SplitWhitespace(s[1..])
    ensures s == [s[0]] + l + Layout(SplitWhitespace(s), gaps)
  {
    var ws := SplitWhitespace(s[1..]);
    assert SplitWhitespace(s) == ws;
    assert ([s[0]] + l)[1..] == l;
    var lay := Layout(ws, gaps);
    calc {
      s;
      { SplitAt(s, 1); assert s[..1] == [s[0]]; }
      [s[0]] + s[1..];
      [s[0]] + (l + lay);
      { ConcatAssoc([s[0]], l, lay); }
      [s[0]] + l + lay;
    }
  }

  /** The step of `StringLayout` for a string that starts with a token. */
  lemma LayoutAfterToken(s: string, l: string, g: seq<string>)
    requires s != [] && !IsSpace(s[0])
    requires AllSpace(l) && |g| == |SplitWhitespace(s[RunLength(s)..])|
    requires forall i :: 0 <= i < |g| ==> AllSpace(g[i])
    requires forall i :: 0 <= i < |g| - 1 ==> g[i] != []
    requires s[RunLength(s)..] == l + Layout(SplitWhitespace(s[RunLength(s)..]), g)
    ensures |[l] + g| == |SplitWhitespace(s)|
    ensures forall i :: 0 <= i < |[l] + g| ==> AllSpace(([l] + g)[i])
    ensures forall i :: 0 <= i < |[l] + g| - 1 ==> ([l] + g)[i] != []
    ensures s == Layout(SplitWhitespace(s), [l] + g)
  {
    var n := RunLength(s);
    var rest := SplitWhitespace(s[n..]);
    assert SplitWhitespace(s) == [s[..n]] + rest;
    calc {
      Layout(SplitWhitespace(s), [l] + g);
      Layout([s[..n]] + rest, [l] + g);
      { LayoutCons(s[..n], l, rest, g); }
      s[..n] + (l + Layout(rest, g));
      s[..n] + s[n..];
      { SplitAt(s, n); }
      s;
    }
    if rest != [] {
      assert s[n..][0] == s[n];
      GapBeforeToken(s[n..], l, rest, g);
    }
    GapsCons(l, g);
  }

  /** A string is its prefix followed by the rest. */
  lemma SplitAt(s: string, n: nat)
    requires n <= |s|
    ensures s[..n] + s[n..] == s
  {
  }

  /** Concatenation of strings is associative. */
  lemma ConcatAssoc(a: string, b: string, c: string)
    ensures a + (b + c) == a + b + c
  {
  }

  /** Laying out one more word and gap puts them in front. */
  lemma LayoutCons(w: string, l: string, ws: seq<string>, gaps: seq<string>)
    requires |gaps| == |ws|
    ensures Layout([w] + ws, [l] + gaps) == w + (l + Layout(ws, gaps))
  {
    assert ([w] + ws)[1..] == ws && ([l] + gaps)[1..] == gaps;
  }

  /** A layout of at least one token starts with a character that is not whitespace. */
  lemma LayoutStartsWithToken(ws: seq<string>, gaps: seq<string>)
    requires |gaps| == |ws| && ws != [] && IsToken(ws[0])
    ensures Layout(ws, gaps) != [] && !IsSpace(Layout(ws, gaps)[0])
  {
    assert Layout(ws, gaps)[0] == ws[0][0];
  }

  /** When a layout of tokens follows `l` in a string that starts with whitespace, `l` is not empty. */
  lemma GapBeforeToken(u: string, l: string, ws: seq<string>, gaps: seq<string>)
    requires |gaps| == |ws| && ws != [] && IsToken(ws[0])
    requires u == l + Layout(ws, gaps) && IsSpace(u[0])
    ensures l != []
  {
    LayoutStartsWithToken(ws, gaps);
  }

  /** Gap conditions survive putting a gap in front, non-empty when more gaps follow. */
  lemma GapsCons(l: string, g: seq<string>)
    requires AllSpace(l) && (g != [] ==> l != [])
    requires forall i :: 0 <= i < |g| ==> AllSpace(g[i])
    requires forall i :: 0 <= i < |g| - 1 ==> g[i] != []
    ensures forall i :: 0 <= i < |[l] + g| ==> AllSpace(([l] + g)[i])
    ensures forall i :: 0 <= i < |[l] + g| - 1 ==> ([l] + g)[i] != []
  {
    assert forall i :: 1 <= i < |[l] + g| ==> ([l] + g)[i] == g[i - 1];
  }

  /** Joining tokens with single spaces and splitting at whitespace gives the tokens back. */
  lemma {:induction false} SplitWhitespaceRoundTrip(ws: seq<string>)
    requires |ws| >= 1 && forall i :: 0 <= i < |ws| ==> IsToken(ws[i])
    ensures SplitWhitespace(JoinWithSpace(ws)) == ws
    decreases |ws|
  {
    if |ws| == 1 {
      SplitWhitespaceOfToken(ws[0]);
      assert ws == [ws[0]];
    } else {
      assert forall i :: 0 <= i < |ws[1..]| ==> ws[1..][i] == ws[i + 1];
      SplitWhitespaceRoundTrip(ws[1..]);
      SplitWhitespaceToken(ws[0], JoinWithSpace(ws[1..]));
      assert ws == [ws[0]] + ws[1..];
    }
  }

  /** A single token splits into itself. */
  lemma SplitWhitespaceOfToken(w: string)
    requires IsToken(w)
    ensures SplitWhitespace(w) == [w]
  {
    RunOfToken(w, []);
    assert w + [] == w;
    assert w[..|w|] == w && w[|w|..] == [];
  }

  /**
   The word transform of `tokenize_document`: a word equal to a stop word is
   skipped, and every other word is emitted with its punctuation removed.
   */
  function TokenizeWords(ws: seq<string>): (r: seq<string>)
    ensures |r| <= |ws|
    ensures forall i :: 0 <= i < |r| ==> forall j :: 0 <= j < |r[i]| ==> !IsPunctuation(r[i][j])
  {
    if ws == [] then []
    else if ws[0] in StopWords then TokenizeWords(ws[1..])
    else [RemovePunctuation(ws[0])] + TokenizeWords(ws[1..])
  }

  /** Punctuation removal applied to every word. */
  function MapRemovePunctuation(ws: seq<string>): seq<string>
  {
    seq(|ws|, i requires 0 <= i < |ws| => RemovePunctuation(ws[i]))
  }

  /**
   The tokenizer filters first and strips afterwards: its output is the
   punctuation-stripped list of the non-stop words.
   */
  lemma {:induction false} TokenizeIsFilterThenStrip(ws: seq<string>)
    ensures TokenizeWords(ws) == MapRemovePunctuation(FilterStopWords(ws))
  {
    if ws != [] {
      TokenizeIsFilterThenStrip(ws[1..]);
      if ws[0] !in StopWords {
        var m := MapRemovePunctuation([ws[0]] + FilterStopWords(ws[1..]));
        assert m == [RemovePunctuation(ws[0])] + MapRemovePunctuation(FilterStopWords(ws[1..]));
      }
    }
  }

  /** Because the stop-word test comes first, `the,` is emitted as the stop word `the`. */
  lemma StopWordAfterStripping()
    ensures TokenizeWords(["the,"]) == ["the"]
    ensures "the" in StopWords
  {
    assert "the," !in StopWords;
    assert RemovePunctuation("the,"[1..]) == "he";
    assert RemovePunctuation("the,") == "the";
  }

  /** `tokenize_document` on one line of the file. */
  function TokenizeLine(line: string): (r: seq<string>)
    ensures |r| <= |SplitWhitespace(line)|
    ensures forall i :: 0 <= i < |r| ==> forall j :: 0 <= j < |r[i]| ==> !IsPunctuation(r[i][j])
  {
    TokenizeWords(SplitWhitespace(line))
  }

  /**
   A line laid out as whitespace-separated tokens yields the tokenizer's
   output for exactly those tokens: non-stop words, stripped of punctuation.
   */
  lemma TokenizeLineOfLayout(lead: string, ws: seq<string>, gaps: seq<string>)
    requires AllSpace(lead) && |gaps| == |ws|
    requires forall i :: 0 <= i < |ws| ==> IsToken(ws[i]) && AllSpace(gaps[i])
    requires forall i :: 0 <= i < |ws| - 1 ==> gaps[i] != []
    ensures TokenizeLine(lead + Layout(ws, gaps)) == MapRemovePunctuation(FilterStopWords(ws))
  {
    SplitWhitespaceOfLayout(lead, ws, gaps);
    TokenizeIsFilterThenStrip(ws);
  }

  /** `tokenize_document` over the lines of a file, in order. */
  function TokenizeLines(lines: seq<string>): (r: seq<string>)
    ensures forall i :: 0 <= i < |r| ==> forall j :: 0 <= j < |r[i]| ==> !IsPunctuation(r[i][j])
  {
    if lines == [] then [] else TokenizeLine(lines[0]) + TokenizeLines(lines[1..])
  }

  /** Tokenizing a document is tokenizing its lines one after the other. */
  lemma {:induction false} TokenizeLinesConcat(a: seq<string>, b: seq<string>)
    ensures TokenizeLines(a + b) == TokenizeLines(a) + TokenizeLines(b)
  {
    if a != [] {
      assert (a + b)[0] == a[0];
      assert (a + b)[1..] == a[1..] + b;
      TokenizeLinesConcat(a[1..], b);
    } else {
      assert a + b == b;
    }
  }
}
