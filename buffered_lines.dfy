/**
 * The line framing of PhotoDataAppender.readData: each read appends a decoded chunk to
 * the carried text `bufferLine`, turns CR into LF, splits on runs of LF and hands the
 * newline-terminated pieces to the record loop, carrying an unterminated tail forward.
 */
module BufferedLines {
  import opened JavaText

  predicate EndsWithNewline(s: string)
  {
    |s| > 0 && s[|s| - 1] == LF
  }

  /** The pieces of `s` that a run of LFs terminates, in order. */
  function Lines(s: string): (ls: seq<string>)
    ensures AllFree(ls, NewlineRun)
  {
    var ps := Pieces(s, NewlineRun);
    ps[..|ps| - 1]
  }

  /**
   * The records one read of `buffer` processes: the pieces of
   * `buffer.split("(\n)+")`, all of them when the buffer ends with LF and all but the
   * last otherwise.
   */
  function CompleteRecords(buffer: string): (rs: seq<string>)
    ensures AllFree(rs, NewlineRun)
  {
    var data := Split(buffer, NewlineRun);
    if EndsWithNewline(buffer) then data else data[..|data| - 1]
  }

  /**
   * How the text read so far splits into a `settled` part, whose records are final, and
   * the carried `bufferLine`: the carry starts right after a newline and is not empty.
   */
  predicate CarryInvariant(settled: string, carry: string)
  {
    settled == [] || (EndsWithNewline(settled) && carry != [] && carry[0] != LF)
  }

  /** The characters of a file, read chunk after chunk. */
  function Concat(chunks: seq<string>): string
  {
    if chunks == [] then [] else Concat(chunks[..|chunks| - 1]) + chunks[|chunks| - 1]
  }

  /**
   * The records of a file read in one go: what every chunked read must agree with. None
   * holds an LF, and a file without any line ending has none, since its only line is never
   * terminated.
   */
  function FileRecords(chunks: seq<string>): (rs: seq<string>)
    ensures AllFree(rs, NewlineRun)
    ensures (forall i | 0 <= i < |Concat(chunks)| :: Concat(chunks)[i] != CR && Concat(chunks)[i] != LF) ==> rs == []
  {
    BreakFreeText(Concat(chunks));
    CompleteRecords(ReplaceCR(Concat(chunks)))
  }

  /** Text without CR or LF holds no complete record. */
  lemma BreakFreeText(text: string)
    ensures (forall i | 0 <= i < |text| :: text[i] != CR && text[i] != LF) ==> CompleteRecords(ReplaceCR(text)) == []
  {
    if forall i | 0 <= i < |text| :: text[i] != CR && text[i] != LF {
      ReplaceCRKeeps(text);
      assert Free(text, NewlineRun);
    }
  }

  // ---------------------------------------------------------------------------

  lemma {:induction false} ConcatAppend(a: seq<string>, b: seq<string>)
    ensures Concat(a + b) == Concat(a) + Concat(b)
    decreases |b|
  {
    if b == [] {
      assert a + b == a;
    } else {
      var b' := b[..|b| - 1];
      ConcatAppend(a, b');
      assert (a + b)[..|a + b| - 1] == a + b';
    }
  }

  /**
   * A read processes exactly the newline-terminated pieces, except that a buffer made of
   * newlines only processes nothing (Java drops the trailing empty pieces of a split).
   */
  lemma CompleteRecordsAreLines(b: string)
    ensures CompleteRecords(b) == if EndsWithNewline(b) && Lines(b) == [""] then [] else Lines(b)
  {
    var ps := Pieces(b, NewlineRun);
    if Free(b, NewlineRun) {
      PiecesOfFree(b, NewlineRun);
    } else if !EndsWithNewline(b) {
      PiecesEndOther(b, NewlineRun);
    } else {
      PiecesEndDelimiter(b, NewlineRun);
      ScanInteriorNonEmpty([""], b, NewlineRun);
      var ls := ps[..|ps| - 1];
      assert ps == ls + [""];
      assert StripTrailingEmpty(ps) == StripTrailingEmpty(ls);
      if ls[|ls| - 1] == "" {
        assert |ls| == 1;
        assert StripTrailingEmpty(ls) == StripTrailingEmpty([]);
      }
    }
  }

  /** The pieces of text that ends at a newline, then those of text that starts a new line. */
  lemma PiecesAfterNewline(x: string, y: string)
    requires x != [] && EndsWithNewline(x) && y != [] && y[0] != LF
    ensures var px := Pieces(x, NewlineRun);
      Pieces(x + y, NewlineRun) == px[..|px| - 1] + Pieces(y, NewlineRun)
  {
    var px := Pieces(x, NewlineRun);
    var lx := px[..|px| - 1];
    ScanAppend([""], x, y, NewlineRun);
    PiecesEndDelimiter(x, NewlineRun);
    assert px == lx + [""];
    ScanShift(lx, "", y, NewlineRun);
  }

  /** Lines of text that ends at a newline and text that starts a new line concatenate. */
  lemma LinesAppend(x: string, y: string)
    requires x == [] || EndsWithNewline(x)
    requires y == [] || y[0] != LF
    ensures Lines(x + y) == Lines(x) + Lines(y)
  {
    if x == [] {
      assert x + y == y;
    } else if y == [] {
      assert x + y == x;
    } else {
      var px := Pieces(x, NewlineRun);
      var py := Pieces(y, NewlineRun);
      var lx := px[..|px| - 1];
      PiecesAfterNewline(x, y);
      assert (lx + py)[..|lx + py| - 1] == lx + py[..|py| - 1];
    }
  }

  /** Reading more text never takes back a terminated line. */
  lemma LinesGrow(b: string, z: string)
    ensures Lines(b) <= Lines(b + z)
  {
    ScanAppend([""], b, z, NewlineRun);
    ScanKeeps(Pieces(b, NewlineRun), z, NewlineRun);
  }

  /** What a read processes is a prefix of what a read of more text processes. */
  lemma CompleteRecordsGrow(b: string, z: string)
    ensures CompleteRecords(b) <= CompleteRecords(b + z)
  {
    CompleteRecordsAreLines(b);
    CompleteRecordsAreLines(b + z);
    LinesGrow(b, z);
    if CompleteRecords(b) != [] && EndsWithNewline(b + z) && Lines(b + z) == [""] {
      var pb := Pieces(b, NewlineRun);
      assert Lines(b) == [""];
      assert b != [];
      PiecesEndOther(b, NewlineRun);
      ScanAppend([""], b, z, NewlineRun);
      ScanKeeps(pb, z, NewlineRun);
      PiecesEndDelimiter(b + z, NewlineRun);
      var pbz := Pieces(b + z, NewlineRun);
      assert false;
    }
  }

  /** The records of the whole text are those of the settled part, then the carry's. */
  lemma SettledSplit(settled: string, w: string)
    requires CarryInvariant(settled, w)
    ensures CompleteRecords(settled + w) == Lines(settled) + CompleteRecords(w)
  {
    if settled == [] {
      assert settled + w == w;
    } else {
      LinesAppend(settled, w);
      CompleteRecordsAreLines(settled + w);
      CompleteRecordsAreLines(w);
      assert EndsWithNewline(settled + w) == EndsWithNewline(w);
      if EndsWithNewline(w) {
        PiecesFirstNonEmpty(w, NewlineRun);
        PiecesEndDelimiter(w, NewlineRun);
        assert Lines(w)[0] != "";
      }
    }
  }

  /**
   * A read whose buffer does not end with LF keeps the buffer's last piece as the new
   * carry; everything before it becomes settled, and the records stay the same.
   */
  lemma SettleIncomplete(settled: string, b: string, c: string)
    requires CarryInvariant(settled, b) && !EndsWithNewline(b)
    requires var d := Split(b, NewlineRun); c == d[|d| - 1]
    ensures |c| <= |b| && b == b[..|b| - |c|] + c
    ensures CarryInvariant(settled + b[..|b| - |c|], c)
    ensures Lines(settled) + CompleteRecords(b) == Lines(settled + b[..|b| - |c|]) + CompleteRecords(c)
  {
    assert |c| <= |b| && b == b[..|b| - |c|] + c by {
      PiecesLastIsSuffix(b, NewlineRun);
    }
    var x := b[..|b| - |c|];
    assert x == [] || EndsWithNewline(x) by {
      PiecesLastIsSuffix(b, NewlineRun);
    }
    assert b != [] ==> c != [] by {
      PiecesEndOther(b, NewlineRun);
    }
    assert Free(c, NewlineRun);
    SettleFragment(settled, x, c);
    FragmentCarry(settled, x, c);
  }

  /** Text that ends at a newline, followed by a fragment with no LF: the fragment holds no record. */
  lemma SettleFragment(settled: string, x: string, c: string)
    requires CarryInvariant(settled, x + c) && (x == [] || EndsWithNewline(x))
    requires Free(c, NewlineRun) && !EndsWithNewline(x + c)
    ensures Lines(settled) + CompleteRecords(x + c) == Lines(settled + x) + CompleteRecords(c)
  {
    assert CompleteRecords(c) == [] by {
      PiecesOfFree(c, NewlineRun);
    }
    assert CompleteRecords(x + c) == Lines(x) by {
      CompleteRecordsAreLines(x + c);
      LinesAppend(x, c);
      PiecesOfFree(c, NewlineRun);
    }
    assert Lines(settled + x) == Lines(settled) + Lines(x) by {
      if settled == [] {
        assert settled + x == x;
      } else {
        LinesAppend(settled, x);
      }
    }
    assert Lines(settled + x) + [] == Lines(settled + x);
  }

  /** The fragment a read keeps starts right after the newline that ends the settled text. */
  lemma FragmentCarry(settled: string, x: string, c: string)
    requires CarryInvariant(settled, x + c) && (x == [] || EndsWithNewline(x))
    requires Free(c, NewlineRun) && (x != [] ==> c != [])
    ensures CarryInvariant(settled + x, c)
  {
    if x == [] {
      assert settled + x == settled && x + c == c;
    } else {
      assert (settled + x)[|settled + x| - 1] == x[|x| - 1];
      assert c[0] != LF;
    }
  }

  /**
   * One more read: the carry grows by the chunk with CR turned into LF, the text read so far
   * is still the settled part followed by the carry, and no record is lost.
   */
  lemma ReadGrows(text: string, settled: string, carry: string, chunk: string)
    requires ReplaceCR(text) == settled + carry && CarryInvariant(settled, carry)
    ensures var b := ReplaceCR(carry + chunk);
      && ReplaceCR(text + chunk) == settled + b
      && CarryInvariant(settled, b)
      && CompleteRecords(carry) <= CompleteRecords(b)
  {
    assert CR !in carry by {
      assert carry == ReplaceCR(text)[|settled|..];
    }
    ReplaceCRAppend(text, chunk);
    ReplaceCRAppend(carry, chunk);
    ReplaceCRKeeps(carry);
    assert settled + carry + ReplaceCR(chunk) == settled + (carry + ReplaceCR(chunk));
    CompleteRecordsGrow(carry, ReplaceCR(chunk));
  }

  /** `c` is what follows the last LF of `b`: all of `b` when `b` holds no LF. */
  predicate LastFragment(b: string, c: string)
  {
    && Free(c, NewlineRun) && |c| <= |b| && b[|b| - |c|..] == c
    && (|c| == |b| || b[|b| - |c| - 1] == LF)
  }

  /** A text has only one fragment after its last LF. */
  lemma LastFragmentUnique(b: string, c: string, c': string)
    requires LastFragment(b, c) && LastFragment(b, c')
    ensures c == c'
  {
  }

  /**
   * The carry a read keeps: the whole buffer when it ends with LF (the quirk that makes the
   * next read handle its lines again), else the unterminated text after the last LF.
   */
  function Carry(b: string): (c: string)
    ensures EndsWithNewline(b) ==> c == b
    ensures !EndsWithNewline(b) ==> LastFragment(b, c)
  {
    if EndsWithNewline(b) then b
    else
      var d := Split(b, NewlineRun);
      PiecesLastIsSuffix(b, NewlineRun);
      d[|d| - 1]
  }

  /**
   * What one read hands on is fixed by its buffer alone: the records are the buffer's
   * terminated lines (none for a buffer of newlines only), and the carry is the whole buffer
   * when it ends with LF, else the text after its last LF.
   */
  lemma ReadSplitDetermined(b: string, records: seq<string>, c: string)
    requires records == if EndsWithNewline(b) && Lines(b) == [""] then [] else Lines(b)
    requires EndsWithNewline(b) ==> c == b
    requires !EndsWithNewline(b) ==> LastFragment(b, c)
    ensures records == CompleteRecords(b) && c == Carry(b)
  {
    CompleteRecordsAreLines(b);
    if !EndsWithNewline(b) {
      LastFragmentUnique(b, c, Carry(b));
    }
  }

  /**
   * One read, carry and all: after the `n`th read the text so far is the grown settled part
   * followed by the new carry, the records met are the same whichever way they are cut, and
   * they open the records of the whole file.
   */
  lemma ReadStep(chunks: seq<string>, n: nat, settled: string, carry: string, b: string, c: string)
    requires n < |chunks| && ReplaceCR(Concat(chunks[..n])) == settled + carry
    requires CarryInvariant(settled, carry)
    requires b == ReplaceCR(carry + chunks[n]) && c == Carry(b)
    ensures |c| <= |b|
    ensures ReplaceCR(Concat(chunks[..n + 1])) == (settled + b[..|b| - |c|]) + c
    ensures CarryInvariant(settled + b[..|b| - |c|], c)
    ensures CompleteRecords(carry) <= CompleteRecords(b)
    ensures Lines(settled) + CompleteRecords(b) == Lines(settled + b[..|b| - |c|]) + CompleteRecords(c)
    ensures Lines(settled) + CompleteRecords(b) <= FileRecords(chunks)
  {
    assert chunks[..n + 1][..n] == chunks[..n];
    ReadGrows(Concat(chunks[..n]), settled, carry, chunks[n]);
    ReadSoFar(chunks, n + 1, settled, b);
    CarrySettles(settled, b, c);
  }

  lemma AppendAssociates(x: string, y: string, z: string)
    ensures x + (y + z) == (x + y) + z
  {
  }

  /** Keeping the carry of buffer `b` moves the rest of `b` into the settled text. */
  lemma CarrySettles(settled: string, b: string, c: string)
    requires CarryInvariant(settled, b) && c == Carry(b)
    ensures |c| <= |b| && settled + b == (settled + b[..|b| - |c|]) + c
    ensures CarryInvariant(settled + b[..|b| - |c|], c)
    ensures Lines(settled) + CompleteRecords(b) == Lines(settled + b[..|b| - |c|]) + CompleteRecords(c)
  {
    if EndsWithNewline(b) {
      assert b[..|b| - |c|] == [];
      assert settled + b[..|b| - |c|] == settled;
    } else {
      SettleIncomplete(settled, b, c);
      AppendAssociates(settled, b[..|b| - |c|], c);
    }
  }


  /** The records met after `n` reads open the records of the whole file. */
  lemma ReadSoFar(chunks: seq<string>, n: nat, settled: string, carry: string)
    requires n <= |chunks| && ReplaceCR(Concat(chunks[..n])) == settled + carry
    requires CarryInvariant(settled, carry)
    ensures Lines(settled) + CompleteRecords(carry) <= FileRecords(chunks)
  {
    assert chunks == chunks[..n] + chunks[n..];
    ConcatAppend(chunks[..n], chunks[n..]);
    var rest := ReplaceCR(Concat(chunks[n..]));
    ReplaceCRAppend(Concat(chunks[..n]), Concat(chunks[n..]));
    assert ReplaceCR(Concat(chunks)) == settled + (carry + rest);
    SettledSplit(settled, carry + rest);
    CompleteRecordsGrow(carry, rest);
  }

  // ---------------------------------------------------------------------------
  // An independent description of a well-formed feature file.

  /** A record line: not empty and free of CR and LF. */
  predicate PlainLine(l: string)
  {
    l != [] && forall i | 0 <= i < |l| :: l[i] != CR && l[i] != LF
  }

  /** A line ending: one or more CR and LF characters in any mix (LF, CRLF, blank lines). */
  predicate LineBreak(e: string)
  {
    e != [] && forall i | 0 <= i < |e| :: e[i] == CR || e[i] == LF
  }

  /** The file text with each line followed by its line ending. */
  function Layout(lines: seq<string>, breaks: seq<string>): string
    requires |lines| == |breaks|
  {
    if lines == [] then []
    else Layout(lines[..|lines| - 1], breaks[..|breaks| - 1]) + lines[|lines| - 1] + breaks[|breaks| - 1]
  }

  lemma {:induction false} ScanNewlines(l: string, e: string)
    requires e != [] && forall i | 0 <= i < |e| :: e[i] == LF
    ensures Scan([l], e, NewlineRun) == [l, ""]
    decreases |e|
  {
    var e' := e[..|e| - 1];
    if e' != [] {
      ScanNewlines(l, e');
    }
  }

  /** One line with its ending reads back as exactly that line. */
  lemma LineAndBreak(l: string, e: string)
    requires PlainLine(l) && LineBreak(e)
    ensures var u := ReplaceCR(l + e); EndsWithNewline(u) && u[0] != LF && Lines(u) == [l]
  {
    ReplaceCRAppend(l, e);
    ReplaceCRKeeps(l);
    var e' := ReplaceCR(e);
    assert ReplaceCR(l + e) == l + e';
    ScanAppend([""], l, e', NewlineRun);
    PiecesOfFree(l, NewlineRun);
    ScanNewlines(l, e');
  }

  lemma {:induction false} LayoutLines(lines: seq<string>, breaks: seq<string>)
    requires |lines| == |breaks|
    requires forall i | 0 <= i < |lines| :: PlainLine(lines[i]) && LineBreak(breaks[i])
    ensures var t := ReplaceCR(Layout(lines, breaks)); (t == [] || EndsWithNewline(t)) && Lines(t) == lines
    decreases |lines|
  {
    if lines != [] {
      var n := |lines| - 1;
      var l, e := lines[n], breaks[n];
      assert lines == lines[..n] + [l];
      var prev := Layout(lines[..n], breaks[..n]);
      LayoutLines(lines[..n], breaks[..n]);
      AppendAssociates(prev, l, e);
      ReplaceCRAppend(prev, l + e);
      LineAndBreak(l, e);
      var t', u := ReplaceCR(prev), ReplaceCR(l + e);
      LinesAppend(t', u);
    }
  }

  /**
   * A file of non-empty lines, each ended by any mix of CR and LF and possibly followed by
   * an unterminated last fragment, yields exactly its lines as records, in order.
   */
  lemma LinesRoundTrip(lines: seq<string>, breaks: seq<string>, tail: string)
    requires |lines| == |breaks|
    requires forall i | 0 <= i < |lines| :: PlainLine(lines[i]) && LineBreak(breaks[i])
    requires forall i | 0 <= i < |tail| :: tail[i] != CR && tail[i] != LF
    ensures CompleteRecords(ReplaceCR(Layout(lines, breaks) + tail)) == lines
  {
    var t := ReplaceCR(Layout(lines, breaks));
    LayoutLines(lines, breaks);
    ReplaceCRAppend(Layout(lines, breaks), tail);
    ReplaceCRKeeps(tail);
    LinesAppend(t, tail);
    PiecesOfFree(tail, NewlineRun);
    CompleteRecordsAreLines(t + tail);
    if lines != [] {
      assert lines[0] != "";
    }
  }

  // ---------------------------------------------------------------------------
  // Files that open with a line break.

  /** A run of LFs splits into two empty pieces: the one before it and the open one after. */
  lemma {:induction false} PiecesOfNewlines(s: string)
    requires s != [] && forall i | 0 <= i < |s| :: s[i] == LF
    ensures Pieces(s, NewlineRun) == ["", ""]
    decreases |s|
  {
    var init := s[..|s| - 1];
    if init != [] {
      PiecesOfNewlines(init);
    }
    assert Pieces(s, NewlineRun) == Extend(Pieces(init, NewlineRun), LF, NewlineRun);
  }

  /**
   * Text that opens with LF and holds some other character has an empty first piece
   * followed by a non-empty one.
   */
  lemma LeadingNewlinePieces(t: string, i: nat)
    requires 0 < i < |t| && t[i] != LF && forall k | 0 <= k < i :: t[k] == LF
    ensures |Pieces(t, NewlineRun)| >= 2
    ensures Pieces(t, NewlineRun)[0] == "" && Pieces(t, NewlineRun)[1] != ""
  {
    var run := t[..i];
    PiecesOfNewlines(run);
    var ps := Scan([""], t[..i + 1], NewlineRun);
    assert ps == ["", [t[i]]] by {
      assert t[..i + 1] == run + [t[i]];
      ScanAppend([""], run, [t[i]], NewlineRun);
      assert [t[i]][..0] == [];
      assert Scan(["", ""], [t[i]], NewlineRun) == Extend(["", ""], t[i], NewlineRun);
      var open: string := "";
      assert open + [t[i]] == [t[i]];
      assert ["", open][..1] == [""];
    }
    assert t == t[..i + 1] + t[i + 1..];
    ScanAppend([""], t[..i + 1], t[i + 1..], NewlineRun);
    ScanKeeps(ps, t[i + 1..], NewlineRun);
  }

  /**
   * A buffer that opens with LF and holds some other character yields the empty record
   * first: `split("(\n)+")` keeps the leading empty piece.
   */
  lemma LeadingNewlineRecord(t: string)
    requires t != [] && t[0] == LF && exists i | 0 <= i < |t| :: t[i] != LF
    ensures CompleteRecords(t) != [] && CompleteRecords(t)[0] == ""
  {
    var i := 0;
    while t[i] == LF
      invariant 0 <= i < |t| && forall k | 0 <= k < i :: t[k] == LF
      invariant exists j | i <= j < |t| :: t[j] != LF
      decreases |t| - i
    {
      i := i + 1;
    }
    LeadingNewlinePieces(t, i);
    var ps := Pieces(t, NewlineRun);
    assert !Free(t, NewlineRun);
    var data := StripTrailingEmpty(ps);
    assert Split(t, NewlineRun) == data;
    assert |data| >= 2 && data[0] == "";
  }

  /**
   * A file whose text opens with CR or LF and holds some other character yields the empty
   * record first.
   */
  lemma LeadingBreakFile(chunks: seq<string>)
    requires var text := Concat(chunks);
      && text != [] && (text[0] == CR || text[0] == LF)
      && exists i | 0 <= i < |text| :: text[i] != CR && text[i] != LF
    ensures FileRecords(chunks) != [] && FileRecords(chunks)[0] == ""
  {
    var text := Concat(chunks);
    var i :| 0 <= i < |text| && text[i] != CR && text[i] != LF;
    var t := ReplaceCR(text);
    assert t[i] != LF;
    LeadingNewlineRecord(t);
  }

  /** A file made of line breaks only, or empty, yields no record at all. */
  lemma BreaksOnlyFile(chunks: seq<string>)
    requires forall i | 0 <= i < |Concat(chunks)| :: Concat(chunks)[i] == CR || Concat(chunks)[i] == LF
    ensures FileRecords(chunks) == []
  {
    var t := ReplaceCR(Concat(chunks));
    if t != [] {
      PiecesOfNewlines(t);
      assert !Free(t, NewlineRun);
      assert StripTrailingEmpty(["", ""]) == [];
    }
  }
}
