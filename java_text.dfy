/**
 * The few pieces of java.lang.String and commons-lang the photo appender relies on:
 * String.split with a regular expression, String.trim, replacing CR by LF, and
 * StringUtils.isBlank.
 */
module JavaText {
  import opened Wrappers

  const LF: char := '\n'
  const CR: char := '\r'

  /** The three separators the appender splits on: "(\n)+", "[ \t]+" and ",". */
  datatype Delimiter = NewlineRun | BlankRun | Comma
  {
    predicate Matches(c: char)
    {
      match this
      case NewlineRun => c == LF
      case BlankRun => c == ' ' || c == '\t'
      case Comma => c == ','
    }

    /** A pattern written with `+` swallows a whole run of matching characters. */
    predicate Repeats()
    {
      NewlineRun? || BlankRun?
    }
  }

  /** `s` holds no character the delimiter matches. */
  predicate Free(s: string, d: Delimiter)
  {
    forall i | 0 <= i < |s| :: !d.Matches(s[i])
  }

  /** No piece of `ps` holds a character the delimiter matches. */
  predicate AllFree(ps: seq<string>, d: Delimiter)
  {
    forall i | 0 <= i < |ps| :: Free(ps[i], d)
  }

  /** The last character scanned was a delimiter (the open piece is still empty). */
  predicate InRun(ps: seq<string>)
  {
    |ps| >= 2 && ps[|ps| - 1] == ""
  }

  /** Feeds one more character to a split in progress; the last piece is the open one. */
  function Extend(ps: seq<string>, c: char, d: Delimiter): (r: seq<string>)
    requires |ps| >= 1
    ensures |r| >= |ps|
    ensures AllFree(ps, d) ==> AllFree(r, d)
  {
    if !d.Matches(c) then
      ps[..|ps| - 1] + [ps[|ps| - 1] + [c]]
    else if d.Repeats() && InRun(ps) then
      ps
    else
      ps + [""]
  }

  /** Feeds the characters of `s`, left to right, to a split in progress. */
  function Scan(ps: seq<string>, s: string, d: Delimiter): (r: seq<string>)
    requires |ps| >= 1
    ensures |r| >= |ps|
    ensures AllFree(ps, d) ==> AllFree(r, d)
    decreases |s|
  {
    if s == [] then ps else Extend(Scan(ps, s[..|s| - 1], d), s[|s| - 1], d)
  }

  /**
   * Every piece of `s` between delimiter matches, keeping a leading and a trailing empty
   * piece when `s` starts or ends with a match.
   */
  function Pieces(s: string, d: Delimiter): (ps: seq<string>)
    ensures |ps| >= 1
    ensures AllFree(ps, d)
  {
    Scan([""], s, d)
  }

  /** Drops the empty pieces at the end, as String.split does with limit 0. */
  function StripTrailingEmpty(ps: seq<string>): (r: seq<string>)
    ensures r <= ps
    ensures r == [] || r[|r| - 1] != ""
    ensures forall i | |r| <= i < |ps| :: ps[i] == ""
  {
    if ps == [] || ps[|ps| - 1] != "" then ps else StripTrailingEmpty(ps[..|ps| - 1])
  }

  /**
   * String.split(regex): the whole string when nothing matches; otherwise the pieces
   * around the matches with the trailing empty ones removed.
   */
  function Split(s: string, d: Delimiter): (r: seq<string>)
    ensures AllFree(r, d)
    ensures (s == [] || !d.Matches(s[|s| - 1])) ==> |r| >= 1 && r[|r| - 1] == Pieces(s, d)[|Pieces(s, d)| - 1]
  {
    if Free(s, d) then
      PiecesOfFree(s, d);
      [s]
    else
      PiecesEndOther(s, d);
      StripTrailingEmpty(Pieces(s, d))
  }

  /** String.replaceAll("\r", "\n"). */
  function ReplaceCR(s: string): (r: string)
    ensures |r| == |s| && CR !in r
    ensures forall i | 0 <= i < |s| && s[i] != CR :: r[i] == s[i]
    ensures forall i | 0 <= i < |s| && s[i] == CR :: r[i] == LF
  {
    seq(|s|, i requires 0 <= i < |s| => if s[i] == CR then LF else s[i])
  }

  lemma ReplaceCRAppend(a: string, b: string)
    ensures ReplaceCR(a + b) == ReplaceCR(a) + ReplaceCR(b)
  {
  }

  lemma ReplaceCRKeeps(s: string)
    requires CR !in s
    ensures ReplaceCR(s) == s
  {
  }

  /** Strips leading characters up to U+0020, as String.trim does. */
  function TrimStart(s: string): (r: string)
    ensures |r| <= |s| && r == s[|s| - |r|..]
    ensures r == [] || r[0] > ' '
    ensures forall i | 0 <= i < |s| - |r| :: s[i] <= ' '
  {
    if s != [] && s[0] <= ' ' then TrimStart(s[1..]) else s
  }

  /** Strips trailing characters up to U+0020, as String.trim does. */
  function TrimEnd(s: string): (r: string)
    ensures |r| <= |s| && r == s[..|r|]
    ensures r == [] || r[|r| - 1] > ' '
    ensures forall i | |r| <= i < |s| :: s[i] <= ' '
  {
    if s != [] && s[|s| - 1] <= ' ' then TrimEnd(s[..|s| - 1]) else s
  }

  /** `r` is the slice of `s` from `i`, and every character of `s` around it is at or below U+0020. */
  predicate BlankMargins(s: string, i: nat, r: string)
  {
    && i + |r| <= |s| && r == s[i..i + |r|]
    && (forall k | 0 <= k < i :: s[k] <= ' ')
    && (forall k | i + |r| <= k < |s| :: s[k] <= ' ')
  }

  /**
   * String.trim: `s` without its leading and trailing characters at or below U+0020, so
   * the result is a slice of `s` that neither starts nor ends with such a character.
   */
  function Trim(s: string): (r: string)
    ensures r == [] || (r[0] > ' ' && r[|r| - 1] > ' ')
    ensures exists i: nat :: BlankMargins(s, i, r)
  {
    TrimSlice(s);
    TrimEnd(TrimStart(s))
  }

  /** Trimming the end of the trimmed start leaves a slice with blank margins. */
  lemma TrimSlice(s: string)
    ensures TrimEnd(TrimStart(s)) == [] ||
      (TrimEnd(TrimStart(s))[0] > ' ' && TrimEnd(TrimStart(s))[|TrimEnd(TrimStart(s))| - 1] > ' ')
    ensures exists i: nat :: BlankMargins(s, i, TrimEnd(TrimStart(s)))
  {
    var front := TrimStart(s);
    var r := TrimEnd(front);
    assert r != [] ==> r[0] == front[0];
    MarginsCompose(s, front, r);
  }

  /** A blank-margined suffix of a blank-margined prefix is a blank-margined slice. */
  lemma MarginsCompose(s: string, front: string, r: string)
    requires |front| <= |s| && front == s[|s| - |front|..]
    requires forall k | 0 <= k < |s| - |front| :: s[k] <= ' '
    requires |r| <= |front| && r == front[..|r|]
    requires forall k | |r| <= k < |front| :: front[k] <= ' '
    ensures BlankMargins(s, |s| - |front|, r)
  {
    var i := |s| - |front|;
    assert r == s[i..i + |r|] by {
      assert s[i..][..|r|] == s[i..i + |r|];
    }
    forall k | i + |r| <= k < |s|
      ensures s[k] <= ' '
    {
      assert s[k] == front[k - i];
    }
  }

  /** Text that neither starts nor ends with a character at or below U+0020 is its own trim. */
  lemma TrimKeeps(s: string)
    requires s == [] || (s[0] > ' ' && s[|s| - 1] > ' ')
    ensures Trim(s) == s
  {
    assert TrimStart(s) == s;
    assert TrimEnd(s) == s;
  }

  /**
   * Character.isWhitespace: the ASCII blanks and line breaks are whitespace, no visible
   * ASCII character is, and neither are the no-break spaces U+00A0, U+2007 and U+202F.
   */
  function IsJavaWhitespace(c: char): (w: bool)
    ensures c == ' ' || c == '\t' || c == LF || c == CR ==> w
    ensures ' ' < c <= '\U{7F}' ==> !w
    ensures c == '\U{A0}' || c == '\U{2007}' || c == '\U{202F}' ==> !w
  {
    || ('\t' <= c <= '\r')
    || ('\U{1C}' <= c <= '\U{1F}')
    || c == ' '
    || c == '\U{1680}'
    || ('\U{2000}' <= c <= '\U{2006}')
    || ('\U{2008}' <= c <= '\U{200A}')
    || c == '\U{2028}' || c == '\U{2029}' || c == '\U{205F}' || c == '\U{3000}'
  }

  /**
   * StringUtils.isBlank: null, the empty string and whitespace-only text are blank; text
   * with a visible ASCII character is not.
   */
  function IsBlank(s: Option<string>): (b: bool)
    ensures s.None? || s == Some([]) ==> b
    ensures s.Some? && (forall i | 0 <= i < |s.value| :: s.value[i] in {' ', '\t', LF, CR}) ==> b
    ensures s.Some? && (exists i | 0 <= i < |s.value| :: ' ' < s.value[i] <= '\U{7F}') ==> !b
  {
    match s
    case None => true
    case Some(t) => forall i | 0 <= i < |t| :: IsJavaWhitespace(t[i])
  }

  // ---------------------------------------------------------------------------
  // Lemmas about the split.

  lemma {:induction false} PiecesOfFree(s: string, d: Delimiter)
    requires Free(s, d)
    ensures Pieces(s, d) == [s]
    decreases |s|
  {
    if s != [] {
      var init := s[..|s| - 1];
      PiecesOfFree(init, d);
      assert init + [s[|s| - 1]] == s;
    }
  }

  lemma PiecesEndOther(s: string, d: Delimiter)
    ensures s != [] && !d.Matches(s[|s| - 1]) ==> Pieces(s, d)[|Pieces(s, d)| - 1] != ""
  {
  }

  lemma PiecesEndDelimiter(s: string, d: Delimiter)
    requires s != [] && d.Matches(s[|s| - 1])
    ensures |Pieces(s, d)| >= 2 && Pieces(s, d)[|Pieces(s, d)| - 1] == ""
  {
  }

  /** Splitting `s + t` is splitting `s` and then scanning on through `t`. */
  lemma {:induction false} ScanAppend(ps: seq<string>, s: string, t: string, d: Delimiter)
    requires |ps| >= 1
    ensures Scan(ps, s + t, d) == Scan(Scan(ps, s, d), t, d)
    decreases |t|
  {
    if t == [] {
      assert s + t == s;
    } else {
      var t' := t[..|t| - 1];
      ScanAppend(ps, s, t', d);
      assert (s + t)[..|s + t| - 1] == s + t';
      assert (s + t)[|s + t| - 1] == t[|t| - 1];
    }
  }

  /** Scanning never changes a closed piece and only extends the open one. */
  lemma {:induction false} ScanKeeps(ps: seq<string>, t: string, d: Delimiter)
    requires |ps| >= 1
    ensures ps[..|ps| - 1] <= Scan(ps, t, d)
    ensures ps[|ps| - 1] <= Scan(ps, t, d)[|ps| - 1]
    decreases |t|
  {
    if t != [] {
      ScanKeeps(ps, t[..|t| - 1], d);
    }
  }

  lemma ScanOpenEmpty(ps: seq<string>, t: string, d: Delimiter)
    requires |ps| >= 1 && t != []
    requires Scan(ps, t, d)[|Scan(ps, t, d)| - 1] == ""
    ensures |Scan(ps, t, d)| >= 2
  {
  }

  /**
   * Text that does not open with a delimiter only touches the pieces after the closed
   * ones: the closed pieces `a` pass through unchanged.
   */
  lemma {:induction false} ScanShift(a: seq<string>, p: string, t: string, d: Delimiter)
    requires t != [] && !d.Matches(t[0])
    ensures Scan(a + [p], t, d) == a + Scan([p], t, d)
    decreases |t|
  {
    var t' := t[..|t| - 1];
    if t' == [] {
      assert (a + [p])[..|a + [p]| - 1] == a;
    } else {
      assert t'[0] == t[0];
      ScanShift(a, p, t', d);
      ScanShiftStep(a, p, t, d);
    }
  }

  /** The inductive step of `ScanShift`: one more character keeps the closed pieces apart. */
  lemma ScanShiftStep(a: seq<string>, p: string, t: string, d: Delimiter)
    requires |t| >= 2 && !d.Matches(t[0])
    requires Scan(a + [p], t[..|t| - 1], d) == a + Scan([p], t[..|t| - 1], d)
    ensures Scan(a + [p], t, d) == a + Scan([p], t, d)
  {
    var t' := t[..|t| - 1];
    assert |t'| == |t| - 1 >= 1;
    var g := Scan([p], t', d);
    if g[|g| - 1] == "" {
      ScanOpenEmpty([p], t', d);
    }
    ExtendShift(a, g, t[|t| - 1], d);
  }

  lemma ExtendShift(a: seq<string>, g: seq<string>, c: char, d: Delimiter)
    requires |g| >= 1 && (g[|g| - 1] == "" ==> |g| >= 2)
    ensures Extend(a + g, c, d) == a + Extend(g, c, d)
  {
    var ag := a + g;
    assert ag[|ag| - 1] == g[|g| - 1];
    assert InRun(ag) == InRun(g);
    if !d.Matches(c) {
      assert ag[..|ag| - 1] == a + g[..|g| - 1];
      assert Extend(ag, c, d) == (a + g[..|g| - 1]) + [g[|g| - 1] + [c]];
    } else if !(d.Repeats() && InRun(g)) {
      assert ag + [""] == a + (g + [""]);
    }
  }

  /** No piece but the first and the last is empty. */
  predicate InteriorNonEmpty(ps: seq<string>)
  {
    forall i | 0 < i < |ps| - 1 :: ps[i] != ""
  }

  lemma ExtendInteriorNonEmpty(g: seq<string>, c: char, d: Delimiter)
    requires |g| >= 1 && d.Repeats() && InteriorNonEmpty(g)
    ensures InteriorNonEmpty(Extend(g, c, d))
  {
    var r := Extend(g, c, d);
    if !d.Matches(c) {
      assert |r| == |g|;
      assert forall i | 0 <= i < |g| - 1 :: r[i] == g[i];
    } else if !InRun(g) {
      assert r == g + [""];
      assert |g| == 1 || g[|g| - 1] != "";
    }
  }

  /** With a repeating delimiter only the first and the last piece can be empty. */
  lemma {:induction false} ScanInteriorNonEmpty(ps: seq<string>, t: string, d: Delimiter)
    requires |ps| >= 1 && d.Repeats() && InteriorNonEmpty(ps)
    ensures InteriorNonEmpty(Scan(ps, t, d))
    decreases |t|
  {
    if t != [] {
      ScanInteriorNonEmpty(ps, t[..|t| - 1], d);
      ExtendInteriorNonEmpty(Scan(ps, t[..|t| - 1], d), t[|t| - 1], d);
    }
  }

  /** A text that opens with a non-delimiter has a non-empty first piece. */
  lemma {:induction false} PiecesFirstNonEmpty(s: string, d: Delimiter)
    requires s != [] && !d.Matches(s[0])
    ensures Pieces(s, d)[0] != ""
    decreases |s|
  {
    var init := s[..|s| - 1];
    assert Pieces(s, d) == Extend(Pieces(init, d), s[|s| - 1], d);
    if init != [] {
      PiecesFirstNonEmpty(init, d);
    } else {
      assert s[|s| - 1] == s[0];
    }
  }

  /** The last piece is the suffix of `s` after the last delimiter. */
  lemma {:induction false} PiecesLastIsSuffix(s: string, d: Delimiter)
    ensures var c := Pieces(s, d)[|Pieces(s, d)| - 1];
      |c| <= |s| && s[|s| - |c|..] == c && (|c| == |s| || d.Matches(s[|s| - |c| - 1]))
    decreases |s|
  {
    if s != [] {
      var init := s[..|s| - 1];
      var x := s[|s| - 1];
      PiecesLastIsSuffix(init, d);
      var p := Pieces(init, d);
      var c0 := p[|p| - 1];
      assert Pieces(s, d) == Extend(p, x, d);
      if !d.Matches(x) {
        assert Pieces(s, d)[|Pieces(s, d)| - 1] == c0 + [x];
        assert s[|s| - |c0| - 1..] == init[|init| - |c0|..] + [x];
      }
    }
  }

  // ---------------------------------------------------------------------------
  // Splitting text that a writer laid out.

  /** Tokens written one after another with the separator `c` between neighbours. */
  function Join(tokens: seq<string>, c: char): string
    requires |tokens| >= 1
    decreases |tokens|
  {
    if |tokens| == 1 then tokens[0] else Join(tokens[..|tokens| - 1], c) + [c] + tokens[|tokens| - 1]
  }

  /** The tokens a split should give back: none empty, none holding a delimiter character. */
  predicate Tokens(tokens: seq<string>, d: Delimiter)
  {
    |tokens| >= 1 && forall i | 0 <= i < |tokens| :: tokens[i] != [] && Free(tokens[i], d)
  }

  /** Scanning joined tokens yields exactly the tokens. */
  lemma {:induction false} PiecesOfJoin(tokens: seq<string>, c: char, d: Delimiter)
    requires Tokens(tokens, d) && d.Matches(c)
    ensures Pieces(Join(tokens, c), d) == tokens
    decreases |tokens|
  {
    var n := |tokens| - 1;
    if n == 0 {
      PiecesOfFree(tokens[0], d);
    } else {
      var init := tokens[..n];
      assert Tokens(init, d) by {
        assert forall i | 0 <= i < n :: init[i] == tokens[i];
      }
      PiecesOfJoin(init, c, d);
      PiecesOfJoinStep(init, tokens[n], c, d);
      assert tokens == init + [tokens[n]];
    }
  }

  /** One more token after one more delimiter character closes the last piece and opens it. */
  lemma PiecesOfJoinStep(init: seq<string>, t: string, c: char, d: Delimiter)
    requires |init| >= 1 && init[|init| - 1] != [] && t != [] && Free(t, d) && d.Matches(c)
    requires Pieces(Join(init, c), d) == init
    ensures Pieces(Join(init, c) + [c] + t, d) == init + [t]
  {
    var j := Join(init, c);
    assert Scan([""], j + [c], d) == init + [""] by {
      ScanAppend([""], j, [c], d);
      assert [c][..0] == [];
    }
    ScanAppend([""], j + [c], t, d);
    ScanShift(init, "", t, d);
    PiecesOfFree(t, d);
  }

  /**
   * Splitting tokens joined by one delimiter character gives back exactly those tokens:
   * `"a b".split("[ \t]+")` is `["a", "b"]`, `"1,2,3".split(",")` is `["1", "2", "3"]`.
   */
  lemma SplitJoin(tokens: seq<string>, c: char, d: Delimiter)
    requires Tokens(tokens, d) && d.Matches(c)
    ensures Split(Join(tokens, c), d) == tokens
  {
    var s := Join(tokens, c);
    var n := |tokens| - 1;
    PiecesOfJoin(tokens, c, d);
    if n == 0 {
      PiecesOfFree(s, d);
    } else {
      var j := Join(tokens[..n], c);
      assert s[|j|] == c;
      assert !Free(s, d);
      assert tokens[n] != [];
    }
  }

  /** No character of `s` is blank or a control character, as String.trim counts them. */
  predicate Visible(s: string)
  {
    forall i | 0 <= i < |s| :: s[i] > ' '
  }

  /** Joining visible tokens with a visible separator gives visible text ending with the last token. */
  lemma {:induction false} JoinVisible(tokens: seq<string>, c: char)
    requires |tokens| >= 1 && c > ' '
    requires forall i | 0 <= i < |tokens| :: Visible(tokens[i])
    ensures Visible(Join(tokens, c))
    ensures |Join(tokens, c)| >= |tokens[|tokens| - 1]|
    decreases |tokens|
  {
    var n := |tokens| - 1;
    if n > 0 {
      var init := tokens[..n];
      assert forall i | 0 <= i < n :: init[i] == tokens[i];
      JoinVisible(init, c);
    }
  }

  /** Visible text holds no blank and no line break. */
  lemma VisibleIsFree(s: string, d: Delimiter)
    requires Visible(s) && !d.Comma?
    ensures Free(s, d)
  {
  }

  lemma JoinPair(a: string, b: string, c: char)
    ensures Join([a, b], c) == a + [c] + b
  {
    assert [a, b][..1] == [a];
  }
}
