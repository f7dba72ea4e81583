/**
 The live word-limit guard of the task input: the text is trimmed, split on
 runs of white space, empty tokens are dropped, and when more than MAX_WORDS
 words remain the input is replaced by the first MAX_WORDS of them joined by
 single spaces.
 */
module WordLimit {

  /** Largest number of words a task may have. */
  const MAX_WORDS: nat := 5

  /** The characters that JavaScript's `\s` and `String.prototype.trim` treat
      as white space (WhiteSpace and LineTerminator of ECMAScript). */
  predicate IsSpace(c: char) {
    || c == '\t' || c == '\n' || c == '\U{000B}' || c == '\U{000C}' || c == '\r'
    || c == ' ' || c == '\U{00A0}' || c == '\U{1680}'
    || ('\U{2000}' <= c <= '\U{200A}')
    || c == '\U{2028}' || c == '\U{2029}' || c == '\U{202F}' || c == '\U{205F}'
    || c == '\U{3000}' || c == '\U{FEFF}'
  }

  predicate NoSpace(w: string) {
    forall k :: 0 <= k < |w| ==> !IsSpace(w[k])
  }

  predicate AllSpace(s: string) {
    forall k :: 0 <= k < |s| ==> IsSpace(s[k])
  }

  /** A word: a non-empty run of non-space characters. */
  predicate IsWord(w: string) {
    w != [] && NoSpace(w)
  }

  /** Every element is a word. */
  predicate AreWords(ws: seq<string>) {
    forall k :: 0 <= k < |ws| ==> IsWord(ws[k])
  }

  /** Every element is a non-empty run of white space. */
  predicate AreGaps(gs: seq<string>) {
    forall k :: 0 <= k < |gs| ==> gs[k] != [] && AllSpace(gs[k])
  }

  /** Neither starts nor ends with white space. */
  predicate Unpadded(s: string) {
    s == [] || (!IsSpace(s[0]) && !IsSpace(s[|s| - 1]))
  }

  /** `s` is `r` at offset `a` with only white space before and after it. */
  predicate PaddedAt(s: string, r: string, a: nat) {
    a + |r| <= |s| && r == s[a..a + |r|] && AllSpace(s[..a]) && AllSpace(s[a + |r|..])
  }

  /** `trimStart`: drops the leading white space. */
  function TrimStart(s: string): (r: string)
    ensures |r| <= |s| && r == s[|s| - |r|..]
    ensures r == [] || !IsSpace(r[0])
    ensures forall k :: 0 <= k < |s| - |r| ==> IsSpace(s[k])
  {
    if s != [] && IsSpace(s[0]) then TrimStart(s[1..]) else s
  }

  /** `trimEnd`: drops the trailing white space. */
  function TrimEnd(s: string): (r: string)
    ensures |r| <= |s| && r == s[..|r|]
    ensures r == [] || !IsSpace(r[|r| - 1])
    ensures forall k :: |r| <= k < |s| ==> IsSpace(s[k])
  {
    if s != [] && IsSpace(s[|s| - 1]) then TrimEnd(s[..|s| - 1]) else s
  }

  /** `String.prototype.trim`. The result is a slice of the input with only
      white space before and after it; it is unpadded, leaves an unpadded
      string alone, and is empty exactly when the input is all white space. */
  function Trim(s: string): (r: string)
    ensures exists a: nat :: PaddedAt(s, r, a)
    ensures Unpadded(r)
    ensures Unpadded(s) ==> r == s
    ensures r == [] <==> AllSpace(s)
  {
    var t := TrimStart(s);
    assert t == [] ==> AllSpace(s);
    assert AllSpace(s) ==> t == [] by {
      if t != [] {
        assert s[|s| - |t|] == t[0];
      }
    }
    var r := TrimEnd(t);
    assert r != [] ==> r[0] == t[0];
    SliceBetweenPadding(s, t, r);
    r
  }

  /** Dropping white space from the front of `s` and then from the back of
      what is left keeps a slice of `s` with only white space around it. */
  lemma SliceBetweenPadding(s: string, t: string, r: string)
    requires |t| <= |s| && t == s[|s| - |t|..] && forall k :: 0 <= k < |s| - |t| ==> IsSpace(s[k])
    requires |r| <= |t| && r == t[..|r|] && forall k :: |r| <= k < |t| ==> IsSpace(t[k])
    ensures PaddedAt(s, r, |s| - |t|)
  {
    var a := |s| - |t|;
    assert s[a..a + |r|] == t[..|r|];
    assert s[a + |r|..] == t[|r|..];
    assert AllSpace(t[|r|..]);
  }

  /** `s.split(/\s+/)`: the pieces between maximal runs of white space; a
      leading or trailing run yields an empty first or last piece, and the
      empty string yields one empty piece. */
  function SplitRuns(s: string): (r: seq<string>)
    ensures |r| >= 1
    ensures forall k :: 0 <= k < |r| ==> NoSpace(r[k])
    decreases |s|
  {
    if s == [] then [""]
    else if IsSpace(s[0]) then [""] + SplitRuns(TrimStart(s[1..]))
    else
      var rest := SplitRuns(s[1..]);
      [[s[0]] + rest[0]] + rest[1..]
  }

  /** `.filter(word => word.length > 0)`. */
  function NonEmpty(ws: seq<string>): (r: seq<string>)
    ensures |r| <= |ws|
    ensures forall k :: 0 <= k < |r| ==> r[k] != [] && r[k] in ws
    ensures forall w :: multiset(r)[w] == if w == [] then 0 else multiset(ws)[w]
    ensures (forall k :: 0 <= k < |ws| ==> ws[k] != []) ==> r == ws
  {
    if ws == [] then []
    else
      assert ws == [ws[0]] + ws[1..];
      if ws[0] == [] then NonEmpty(ws[1..]) else [ws[0]] + NonEmpty(ws[1..])
  }

  /** The filter keeps the order: what survives of a concatenation is what
      survives of the first part followed by what survives of the second. */
  lemma {:induction false} NonEmptyConcat(a: seq<string>, b: seq<string>)
    ensures NonEmpty(a + b) == NonEmpty(a) + NonEmpty(b)
    decreases |a|
  {
    if a == [] {
      assert a + b == b;
    } else {
      assert (a + b)[0] == a[0] && (a + b)[1..] == a[1..] + b;
      NonEmptyConcat(a[1..], b);
    }
  }

  /** The words of an input value: trim, split on white space, drop empty
      tokens. There are none exactly when the input is all white space. */
  function Words(s: string): (r: seq<string>)
    ensures AreWords(r)
    ensures r == [] <==> AllSpace(s)
  {
    var t := Trim(s);
    var pieces := SplitRuns(t);
    assert t != [] ==> pieces[0] != [] && NonEmpty(pieces) != [];
    NonEmpty(pieces)
  }

  /** `words.join(' ')`. Joining words gives an unpadded, non-empty string. */
  function Join(ws: seq<string>): (r: string)
    ensures AreWords(ws) ==> Unpadded(r)
    ensures AreWords(ws) && ws != [] ==> r != []
  {
    if |ws| == 0 then ""
    else if |ws| == 1 then ws[0]
    else ws[0] + " " + Join(ws[1..])
  }

  /** The value the guard leaves in the input: at most MAX_WORDS words, and
      they are the first words of the original input, in order; an input
      within the limit is left exactly as it was. */
  function LimitWords(s: string): (r: string)
    ensures |Words(s)| <= MAX_WORDS ==> r == s
    ensures Words(r) == if |Words(s)| <= MAX_WORDS then Words(s) else Words(s)[..MAX_WORDS]
    ensures |Words(r)| <= MAX_WORDS
  {
    var ws := Words(s);
    if |ws| > MAX_WORDS then
      WordsOfJoin(ws[..MAX_WORDS]);
      Join(ws[..MAX_WORDS])
    else s
  }

  /** Splitting a string that starts with a word glues that word to the
      first piece of the rest. */
  lemma {:induction false} SplitRunsPrefix(w: string, s: string)
    requires NoSpace(w)
    ensures SplitRuns(w + s) == [w + SplitRuns(s)[0]] + SplitRuns(s)[1..]
    decreases |w|
  {
    if w == [] {
      var r := SplitRuns(s);
      assert w + s == s && w + r[0] == r[0];
      assert [r[0]] + r[1..] == r;
    } else {
      var w' := w[1..];
      assert (w + s)[0] == w[0];
      assert (w + s)[1..] == w' + s;
      SplitRunsPrefix(w', s);
      assert [w[0]] + (w' + SplitRuns(s)[0]) == w + SplitRuns(s)[0];
    }
  }

  /** Splitting words joined by single spaces gives the words back. */
  lemma {:induction false} SplitRunsOfJoin(ws: seq<string>)
    requires ws != []
    requires AreWords(ws)
    ensures SplitRuns(Join(ws)) == ws
    decreases |ws|
  {
    if |ws| == 1 {
      SplitRunsPrefix(ws[0], "");
      assert ws[0] + "" == ws[0];
    } else {
      var j := Join(ws[1..]);
      SplitRunsOfJoin(ws[1..]);
      assert j != [] && !IsSpace(j[0]);
      assert (" " + j)[0] == ' ' && (" " + j)[1..] == j;
      assert SplitRuns(" " + j) == [""] + ws[1..];
      assert ws[0] + " " + j == ws[0] + (" " + j);
      SplitRunsPrefix(ws[0], " " + j);
      assert ws[0] + "" == ws[0];
      assert [ws[0]] + ws[1..] == ws;
    }
  }

  /** The words of a join of words are those words. */
  lemma {:induction false} WordsOfJoin(ws: seq<string>)
    requires AreWords(ws)
    ensures Words(Join(ws)) == ws
  {
    var j := Join(ws);
    if ws == [] {
      assert Trim(j) == [];
    } else {
      assert Trim(j) == j;
      SplitRunsOfJoin(ws);
      assert NonEmpty(ws) == ws;
    }
  }

  /** Words `ws` separated by the white-space runs `gaps`:
      `ws[0] + gaps[0] + ws[1] + … + ws[|ws| - 1]`. */
  function Spaced(ws: seq<string>, gaps: seq<string>): (r: string)
    requires |ws| == |gaps| + 1
    ensures |r| >= |ws[0]|
    decreases |gaps|
  {
    if gaps == [] then ws[0] else ws[0] + gaps[0] + Spaced(ws[1..], gaps[1..])
  }

  /** Concatenation is associative. */
  lemma Assoc<T>(a: seq<T>, b: seq<T>, c: seq<T>)
    ensures a + b + c == a + (b + c)
  {
  }

  /** Concatenation regrouped to the right. */
  lemma Regroup(a: string, b: string, c: string, d: string)
    ensures a + b + c + d == a + b + (c + d)
  {
  }

  /** The last element of a non-empty sequence. */
  function Last<T>(xs: seq<T>): T
    requires xs != []
  {
    xs[|xs| - 1]
  }

  /** Spaced words start with the first character of the first word and
      end with the last character of the last word, so they are unpadded. */
  lemma {:induction false} SpacedEnds(ws: seq<string>, gaps: seq<string>)
    requires |ws| == |gaps| + 1 && AreWords(ws)
    ensures Spaced(ws, gaps) != [] && Spaced(ws, gaps)[0] == ws[0][0]
    ensures Last(Spaced(ws, gaps)) == Last(Last(ws))
    ensures Unpadded(Spaced(ws, gaps))
    decreases |gaps|
  {
    if gaps != [] {
      SpacedEnds(ws[1..], gaps[1..]);
      var rest := Spaced(ws[1..], gaps[1..]);
      assert Spaced(ws, gaps) == ws[0] + gaps[0] + rest;
    }
    assert IsWord(ws[0]) && IsWord(Last(ws));
  }

  /** An input seen as words apart from white space: optional white space
      `pre`, then the words separated by non-empty white-space runs, then
      optional white space `post`. */
  datatype Layout = Layout(pre: string, words: seq<string>, gaps: seq<string>, post: string)

  predicate WellFormed(l: Layout) {
    && |l.words| == |l.gaps| + 1
    && AllSpace(l.pre) && AreWords(l.words) && AreGaps(l.gaps) && AllSpace(l.post)
  }

  /** The text a layout spells out. */
  function Spell(l: Layout): string
    requires WellFormed(l)
  {
    l.pre + Spaced(l.words, l.gaps) + l.post
  }

  /** Removing white space in front of text that starts with a non-space
      character leaves that text. */
  lemma {:induction false} TrimStartGap(g: string, t: string)
    requires AllSpace(g) && (t == [] || !IsSpace(t[0]))
    ensures TrimStart(g + t) == t
    decreases |g|
  {
    if g == [] {
      assert g + t == t;
    } else {
      assert (g + t)[0] == g[0] && (g + t)[1..] == g[1..] + t;
      TrimStartGap(g[1..], t);
    }
  }

  /** Removing white space behind text that ends with a non-space character
      leaves that text. */
  lemma {:induction false} TrimEndGap(t: string, g: string)
    requires AllSpace(g) && (t == [] || !IsSpace(t[|t| - 1]))
    ensures TrimEnd(t + g) == t
    decreases |g|
  {
    if g == [] {
      assert t + g == t;
    } else {
      var u := t + g;
      assert u[|u| - 1] == g[|g| - 1];
      assert u[..|u| - 1] == t + g[..|g| - 1];
      TrimEndGap(t, g[..|g| - 1]);
    }
  }

  /** Trimming removes exactly the white space around an unpadded text. */
  lemma TrimPadded(pre: string, m: string, post: string)
    requires AllSpace(pre) && AllSpace(post) && m != [] && Unpadded(m)
    ensures Trim(pre + m + post) == m
  {
    assert pre + m + post == pre + (m + post);
    assert (m + post)[0] == m[0];
    TrimStartGap(pre, m + post);
    TrimEndGap(m, post);
  }

  /** A white-space run in front of a word (or of nothing) splits off one
      empty piece. */
  lemma SplitRunsGap(g: string, t: string)
    requires g != [] && AllSpace(g) && (t == [] || !IsSpace(t[0]))
    ensures SplitRuns(g + t) == [""] + SplitRuns(t)
  {
    assert (g + t)[0] == g[0] && (g + t)[1..] == g[1..] + t;
    TrimStartGap(g[1..], t);
  }

  /** `split(/\s+/)` of white space alone: one empty piece for the empty
      string, two otherwise. */
  lemma SplitRunsAllSpace(g: string)
    requires AllSpace(g)
    ensures SplitRuns(g) == if g == [] then [""] else ["", ""]
  {
    if g != [] {
      SplitRunsGap(g, "");
      assert g + "" == g;
    }
  }

  /** A word followed by white space or nothing splits into the word and,
      when there is white space, one empty piece. */
  lemma SplitRunsWordEnd(w: string, post: string)
    requires NoSpace(w) && AllSpace(post)
    ensures SplitRuns(w + post) == [w] + (if post == [] then [] else [""])
  {
    SplitRunsAllSpace(post);
    SplitRunsPrefix(w, post);
    assert w + "" == w;
  }

  /** A word followed by a white-space run splits off as one piece. */
  lemma SplitRunsWordGap(w: string, g: string, x: string)
    requires NoSpace(w) && g != [] && AllSpace(g) && x != [] && !IsSpace(x[0])
    ensures SplitRuns(w + g + x) == [w] + SplitRuns(x)
  {
    SplitRunsGap(g, x);
    assert w + g + x == w + (g + x);
    SplitRunsPrefix(w, g + x);
    assert w + "" == w;
  }

  /** Splitting words apart from white-space runs, followed by optional
      white space, gives the words back, and one trailing empty piece when
      there is trailing white space. */
  lemma {:induction false} SplitRunsOfSpaced(ws: seq<string>, gaps: seq<string>, post: string)
    requires |ws| == |gaps| + 1 && AreWords(ws) && AreGaps(gaps) && AllSpace(post)
    ensures SplitRuns(Spaced(ws, gaps) + post) == ws + (if post == [] then [] else [""])
    decreases |gaps|
  {
    if gaps == [] {
      SplitRunsWordEnd(ws[0], post);
      assert [ws[0]] == ws;
    } else {
      var tail: seq<string> := if post == [] then [] else [""];
      var x := Spaced(ws[1..], gaps[1..]) + post;
      assert Spaced(ws, gaps) + post == ws[0] + gaps[0] + x by {
        Regroup(ws[0], gaps[0], Spaced(ws[1..], gaps[1..]), post);
      }
      assert SplitRuns(ws[0] + gaps[0] + x) == [ws[0]] + SplitRuns(x) by {
        SpacedEnds(ws[1..], gaps[1..]);
        SplitRunsWordGap(ws[0], gaps[0], x);
      }
      assert SplitRuns(x) == ws[1..] + tail by {
        SplitRunsOfSpaced(ws[1..], gaps[1..], post);
      }
      Assoc([ws[0]], ws[1..], tail);
      assert [ws[0]] + ws[1..] == ws;
    }
  }

  /** `split(/\s+/)` of any text that is not all white space: its words in
      order, with one empty piece in front when it starts with white space
      and one behind when it ends with white space. */
  lemma SplitRunsOfLayout(l: Layout)
    requires WellFormed(l)
    ensures SplitRuns(Spell(l)) ==
      (if l.pre == [] then [] else [""]) + l.words + (if l.post == [] then [] else [""])
  {
    var m := Spaced(l.words, l.gaps);
    var tail: seq<string> := if l.post == [] then [] else [""];
    var head: seq<string> := if l.pre == [] then [] else [""];
    assert m + l.post != [] && !IsSpace((m + l.post)[0]) by {
      SpacedEnds(l.words, l.gaps);
    }
    assert SplitRuns(m + l.post) == l.words + tail by {
      SplitRunsOfSpaced(l.words, l.gaps, l.post);
    }
    Assoc(l.pre, m, l.post);
    SplitRunsFront(l.pre, m + l.post);
    Assoc(head, l.words, tail);
  }

  /** White space in front of a text that starts with a non-space character
      adds one empty piece in front of its split, and nothing else. */
  lemma SplitRunsFront(pre: string, y: string)
    requires AllSpace(pre) && y != [] && !IsSpace(y[0])
    ensures SplitRuns(pre + y) == (if pre == [] then [] else [""]) + SplitRuns(y)
  {
    if pre == [] {
      assert pre + y == y;
    } else {
      SplitRunsGap(pre, y);
    }
  }

  /** The words of a laid-out text are the words of its layout, in order,
      whatever white space separates and surrounds them. */
  lemma WordsOfLayout(l: Layout)
    requires WellFormed(l)
    ensures Words(Spell(l)) == l.words
  {
    TrimSpell(l);
    SplitRunsOfWords(l.words, l.gaps);
    NonEmptyOfWords(l.words);
  }

  /** Spaced words with no padding split back into exactly those words. */
  lemma SplitRunsOfWords(ws: seq<string>, gaps: seq<string>)
    requires |ws| == |gaps| + 1 && AreWords(ws) && AreGaps(gaps)
    ensures SplitRuns(Spaced(ws, gaps)) == ws
  {
    SplitRunsOfSpaced(ws, gaps, "");
    assert Spaced(ws, gaps) + "" == Spaced(ws, gaps);
  }

  /** Words are never empty, so dropping empty pieces keeps them all. */
  lemma NonEmptyOfWords(ws: seq<string>)
    requires AreWords(ws)
    ensures NonEmpty(ws) == ws
  {
    assert forall k :: 0 <= k < |ws| ==> ws[k] != [];
  }

  /** Trimming a laid-out text leaves its spaced words. */
  lemma TrimSpell(l: Layout)
    requires WellFormed(l)
    ensures Trim(Spell(l)) == Spaced(l.words, l.gaps)
  {
    SpacedEnds(l.words, l.gaps);
    TrimPadded(l.pre, Spaced(l.words, l.gaps), l.post);
  }

  /** Prepending a character to the first word prepends it to the spaced
      text. */
  lemma SpacedPrepend(c: char, ws: seq<string>, gaps: seq<string>)
    requires |ws| == |gaps| + 1
    ensures Spaced([[c] + ws[0]] + ws[1..], gaps) == [c] + Spaced(ws, gaps)
  {
    var ws' := [[c] + ws[0]] + ws[1..];
    assert ws'[0] == [c] + ws[0] && ws'[1..] == ws[1..];
    if gaps != [] {
      var rest := Spaced(ws[1..], gaps[1..]);
      assert ([c] + ws[0]) + gaps[0] + rest == [c] + (ws[0] + gaps[0] + rest);
    }
  }

  /** The layout of `[c] + s`, given a layout `l` of `s`: white space joins
      the padding in front; a non-space character joins the first word when
      `s` starts with it, and is a new first word otherwise. */
  function Cons(c: char, l: Layout): Layout
    requires WellFormed(l)
  {
    if IsSpace(c) then l.(pre := [c] + l.pre)
    else if l.pre == [] then l.(words := [[c] + l.words[0]] + l.words[1..])
    else Layout("", [[c]] + l.words, [l.pre] + l.gaps, l.post)
  }

  lemma ConsSpace(c: char, l: Layout)
    requires WellFormed(l) && IsSpace(c)
    ensures WellFormed(Cons(c, l)) && Spell(Cons(c, l)) == [c] + Spell(l)
  {
    var m := Spaced(l.words, l.gaps);
    assert Spell(Cons(c, l)) == [c] + l.pre + m + l.post;
    assert [c] + l.pre + m + l.post == [c] + (l.pre + m + l.post);
  }

  lemma ConsIntoWord(c: char, l: Layout)
    requires WellFormed(l) && !IsSpace(c) && l.pre == []
    ensures WellFormed(Cons(c, l)) && Spell(Cons(c, l)) == [c] + Spell(l)
  {
    var m := Spaced(l.words, l.gaps);
    SpacedPrepend(c, l.words, l.gaps);
    var ws := [[c] + l.words[0]] + l.words[1..];
    assert AreWords(ws) by {
      assert IsWord(l.words[0]);
      assert forall k :: 1 <= k < |ws| ==> ws[k] == l.words[k];
    }
    var l' := Layout("", ws, l.gaps, l.post);
    assert Cons(c, l) == l' && WellFormed(l');
    assert Spell(l') == [c] + m + l.post;
    assert Spell(l) == m + l.post;
  }

  lemma ConsNewWord(c: char, l: Layout)
    requires WellFormed(l) && !IsSpace(c) && l.pre != []
    ensures WellFormed(Cons(c, l)) && Spell(Cons(c, l)) == [c] + Spell(l)
  {
    var m := Spaced(l.words, l.gaps);
    var ws := [[c]] + l.words;
    var gs := [l.pre] + l.gaps;
    assert ws[0] == [c] && ws[1..] == l.words && gs[0] == l.pre && gs[1..] == l.gaps;
    assert Spaced(ws, gs) == [c] + l.pre + m;
    assert Spell(Cons(c, l)) == [c] + l.pre + m + l.post;
    assert [c] + l.pre + m + l.post == [c] + (l.pre + m + l.post);
  }

  /** A layout of any text that is not all white space, built character by
      character. */
  function LayoutOf(s: string): (l: Layout)
    requires !AllSpace(s)
    ensures WellFormed(l) && Spell(l) == s
    decreases |s|
  {
    assert s == [s[0]] + s[1..];
    if AllSpace(s[1..]) then
      var l := Layout("", [[s[0]]], [], s[1..]);
      assert Spaced(l.words, l.gaps) == [s[0]];
      l
    else
      var rest := LayoutOf(s[1..]);
      if IsSpace(s[0]) then ConsSpace(s[0], rest); Cons(s[0], rest)
      else if rest.pre == [] then ConsIntoWord(s[0], rest); Cons(s[0], rest)
      else ConsNewWord(s[0], rest); Cons(s[0], rest)
  }

  /** The words of any input are exactly the runs of non-space characters
      it is made of, in order: the input is all white space and has no
      words, or it is spelled by a layout whose words they are. */
  lemma WordsAreRuns(s: string)
    ensures AllSpace(s) ==> Words(s) == []
    ensures !AllSpace(s) ==> exists l :: WellFormed(l) && Spell(l) == s && l.words == Words(s)
  {
    if !AllSpace(s) {
      var l := LayoutOf(s);
      WordsOfLayout(l);
    }
  }

  /** Running the guard a second time changes nothing. */
  lemma LimitWordsIdempotent(s: string)
    ensures LimitWords(LimitWords(s)) == LimitWords(s)
  {
  }

  /** Trimming does not change the words of an input. */
  lemma WordsOfTrim(s: string)
    ensures Words(Trim(s)) == Words(s)
  {
  }

  /** A task taken from an input the guard has run on, trimmed as the add
      button does, has at most MAX_WORDS words. */
  lemma GuardedTaskWithinLimit(typed: string)
    ensures |Words(Trim(LimitWords(typed)))| <= MAX_WORDS
  {
    var r := LimitWords(typed);
    WordsOfTrim(r);
  }

  /** The add button's emptiness test on the trimmed input is the same as
      asking whether the input has any word. */
  lemma TrimEmptyIffNoWords(s: string)
    ensures Trim(s) == [] <==> Words(s) == []
  {
  }
}
