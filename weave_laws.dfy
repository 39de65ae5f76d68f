/** What weave.py guarantees about its output, proved of the model in module
    Weaver: how lines are classified, the mode the loop keeps, a stateless
    reference description of the output, the nesting and number of code
    blocks, the recovery of the input's text from the output, and the
    boundary cases and worked examples. */
module WeaveLaws {
  import opened Strings
  import opened Weaver

  // ----- Classification -----------------------------------------------------

  /** Blank lines (whitespace only, terminator included) are CODE. */
  lemma BlankLineIsCode(line: string)
    requires AllSpace(line)
    ensures !IsDoc(line) && Content(line) == Code(line)
  {
    StripBlank(line);
  }

  /** Indentation and trailing whitespace do not change a line's class or its
      payload. */
  lemma PaddingIgnored(lead: string, line: string, trail: string)
    requires AllSpace(lead) && AllSpace(trail)
    ensures IsDoc(lead + line + trail) == IsDoc(line)
    ensures Payload(lead + line + trail) == Payload(line)
  {
    StripIgnoresPadding(lead, line, trail);
  }

  /** The payload of a DOC line is what follows the marker and its space,
      or empty for a bare marker; it never ends in whitespace. */
  lemma PayloadShape(line: string)
    requires IsDoc(line)
    ensures Strip(line) == MarkerPrefix + Payload(line) || (Strip(line) == Marker && Payload(line) == [])
    ensures Payload(line) == [] || !IsSpace(Payload(line)[|Payload(line)| - 1])
  {
    StripEnds(line);
    var t := Strip(line);
    if |t| >= 3 {
      assert t == t[..3] + t[3..];
    }
  }

  /** A bare marker contributes an empty line of prose. */
  lemma BareMarkerPrintsEmptyLine(line: string)
    requires Strip(line) == Marker
    ensures IsDoc(line) && Content(line) == Doc([]) && Output(Content(line)) == "\n"
  {
  }

  // ----- The first line -----------------------------------------------------

  /** The initial mode is the class of the first line, so the first iteration
      of the loop takes neither transition branch: it writes only the line's
      content, and the mode stays as it was. */
  lemma FirstLineNoTransition(lines: seq<string>)
    requires |lines| > 0
    ensures Start(lines).inCode == !IsDoc(lines[0])
    ensures Emitted(Start(lines).inCode, lines[0]) == [Content(lines[0])]
    ensures Step(Start(lines), lines[0]) == Machine(Start(lines).inCode, Start(lines).log + [Content(lines[0])])
  {
  }

  // ----- Unfolding the loop one line at a time ------------------------------

  /** The loop over a non-empty file is the loop over all lines but the last,
      followed by one iteration for the last. */
  lemma RunSnoc(m: Machine, lines: seq<string>)
    requires lines != []
    ensures var p := Run(m, lines[..|lines| - 1]);
      Run(m, lines) == Machine(!IsDoc(lines[|lines| - 1]), p.log + Emitted(p.inCode, lines[|lines| - 1]))
  {
  }

  /** The initial state depends on the first line only. */
  lemma StartOfInit(lines: seq<string>)
    requires |lines| >= 2
    ensures Start(lines[..|lines| - 1]) == Start(lines)
  {
    assert lines[..|lines| - 1][0] == lines[0];
  }

  lemma Assoc(a: seq<Write>, b: seq<Write>, c: seq<Write>)
    ensures a + b + c == a + (b + c)
  {
  }

  // ----- A stateless reference description of the output -------------------

  /** The delimiter between a line of class `prevCode` and the next line, of
      class `curCode`: a close when CODE is followed by DOC, an opening (after
      a blank line) when DOC is followed by CODE, nothing otherwise. */
  function Delimiter(prevCode: bool, curCode: bool): seq<Write> {
    if prevCode && !curCode then [CloseBlock]
    else if !prevCode && curCode then [Reopen]
    else []
  }

  /** The writes for line `i`, decided by that line and the one before it. */
  function Segment(lines: seq<string>, i: nat): seq<Write>
    requires i < |lines|
  {
    (if i == 0 then [] else Delimiter(!IsDoc(lines[i - 1]), !IsDoc(lines[i]))) + [Content(lines[i])]
  }

  function Body(lines: seq<string>): (ws: seq<Write>)
    ensures |ws| >= |lines|
    ensures lines != [] ==> ws[0] == Content(lines[0])
    decreases |lines|
  {
    if lines == [] then []
    else
      var init := lines[..|lines| - 1];
      assert init != [] ==> init[0] == lines[0];
      Body(init) + Segment(lines, |lines| - 1)
  }

  /** The output described without a mode: an opening if the file starts
      with CODE, each line's segment, and a close if the file ends with CODE. */
  function Reference(lines: seq<string>): seq<Write>
    requires |lines| > 0
  {
    (if IsDoc(lines[0]) then [] else [OpenBlock])
    + Body(lines)
    + (if IsDoc(lines[|lines| - 1]) then [] else [FinalClose])
  }

  /** One iteration of the loop writes the delimiter the mode calls for, then
      the line's content. */
  lemma EmittedIsDelimited(inCode: bool, line: string)
    ensures Emitted(inCode, line) == Delimiter(inCode, !IsDoc(line)) + [Content(line)]
  {
    if IsDoc(line) {
      if inCode {
        assert [CloseBlock] + [Content(line)] == [CloseBlock, Content(line)];
      } else {
        assert [] + [Content(line)] == [Content(line)];
      }
    } else {
      if inCode {
        assert [] + [Content(line)] == [Content(line)];
      } else {
        assert [Reopen] + [Content(line)] == [Reopen, Content(line)];
      }
    }
  }

  /** The text of a delimiter followed by one more write. */
  lemma DelimiterText(log: seq<Write>, prevCode: bool, curCode: bool, c: Write)
    ensures Render(log + Delimiter(prevCode, curCode) + [c])
         == Render(log)
          + (if prevCode && !curCode then CloseText else if !prevCode && curCode then ReopenText else "")
          + Output(c)
  {
    var d := Delimiter(prevCode, curCode);
    if d == [] {
      assert log + d + [c] == log + [c];
      RenderSnoc(log, c);
      assert Render(log) + "" == Render(log);
    } else {
      var x := d[0];
      assert log + d + [c] == log + [x, c];
      RenderAppend2(log, x, c);
    }
  }

  /** What one iteration puts on standard output: the close "----" before
      the payload on a CODE -> DOC transition, a blank line and the opening
      before the raw line on a DOC -> CODE transition, and otherwise the
      payload (as a printed line) or the raw line alone. DelimiterTexts
      spells the two delimiters out. */
  lemma EmittedText(log: seq<Write>, inCode: bool, line: string)
    ensures Render(log + Emitted(inCode, line))
         == Render(log)
          + (if inCode && IsDoc(line) then CloseText else if !inCode && !IsDoc(line) then ReopenText else "")
          + (if IsDoc(line) then Payload(line) + "\n" else line)
  {
    var c := Content(line);
    EmittedIsDelimited(inCode, line);
    Assoc(log, Delimiter(inCode, !IsDoc(line)), [c]);
    DelimiterText(log, inCode, !IsDoc(line), c);
    assert Output(c) == if IsDoc(line) then Payload(line) + "\n" else line;
  }

  /** The reference gains, for its last line, the delimiter decided by the
      last two lines and then the last line's content. */
  lemma BodySnoc(lines: seq<string>)
    requires |lines| >= 2
    ensures var n := |lines|;
      Body(lines) == Body(lines[..n - 1]) + Delimiter(!IsDoc(lines[n - 2]), !IsDoc(lines[n - 1])) + [Content(lines[n - 1])]
  {
    var n := |lines|;
    assert Segment(lines, n - 1) == Delimiter(!IsDoc(lines[n - 2]), !IsDoc(lines[n - 1])) + [Content(lines[n - 1])];
    Assoc(Body(lines[..n - 1]), Delimiter(!IsDoc(lines[n - 2]), !IsDoc(lines[n - 1])), [Content(lines[n - 1])]);
  }

  /** The loop's last iteration, seen from the line before it: the mode left
      by line n - 2 decides the delimiter. */
  lemma RunFromStartLast(lines: seq<string>)
    requires |lines| >= 2
    ensures var n := |lines|;
      Run(Start(lines), lines).log
      == Run(Start(lines), lines[..n - 1]).log + Delimiter(!IsDoc(lines[n - 2]), !IsDoc(lines[n - 1])) + [Content(lines[n - 1])]
  {
    var n := |lines|;
    var init := lines[..n - 1];
    var m := Run(Start(lines), init);
    RunSnoc(Start(lines), lines);
    assert init[|init| - 1] == lines[n - 2];
    var d := Delimiter(!IsDoc(lines[n - 2]), !IsDoc(lines[n - 1]));
    var c := [Content(lines[n - 1])];
    EmittedIsDelimited(m.inCode, lines[n - 1]);
    assert Emitted(m.inCode, lines[n - 1]) == d + c;
    assert Run(Start(lines), lines).log == m.log + (d + c);
    Assoc(m.log, d, c);
  }

  lemma {:induction false} RunFromStart(lines: seq<string>)
    requires |lines| > 0
    ensures Run(Start(lines), lines).log == Start(lines).log + Body(lines)
    decreases |lines|
  {
    var n := |lines|;
    if n == 1 {
      RunOne(Start(lines), lines[0]);
      assert lines == [lines[0]];
      FirstLineNoTransition(lines);
      assert Body(lines) == [] + [Content(lines[0])];
    } else {
      var init := lines[..n - 1];
      var d := Delimiter(!IsDoc(lines[n - 2]), !IsDoc(lines[n - 1]));
      var c := [Content(lines[n - 1])];
      StartOfInit(lines);
      RunFromStart(init);
      RunFromStartLast(lines);
      BodySnoc(lines);
      assert Run(Start(lines), lines).log == Start(lines).log + Body(init) + d + c;
      Assoc(Start(lines).log, Body(init), d);
      Assoc(Start(lines).log, Body(init) + d, c);
    }
  }

  /** The state machine writes exactly what the reference description says. */
  lemma WeaveLogIsReference(lines: seq<string>)
    requires |lines| > 0
    ensures WeaveLog(lines) == Reference(lines)
  {
    RunFromStart(lines);
  }

  // ----- Counting code blocks -----------------------------------------------

  function Occurrences(ws: seq<Write>, w: Write): nat
    decreases |ws|
  {
    if ws == [] then 0
    else Occurrences(ws[..|ws| - 1], w) + (if ws[|ws| - 1] == w then 1 else 0)
  }

  lemma {:induction false} OccurrencesAppend(a: seq<Write>, b: seq<Write>, w: Write)
    ensures Occurrences(a + b, w) == Occurrences(a, w) + Occurrences(b, w)
    decreases |b|
  {
    if b == [] {
      assert a + b == a;
    } else {
      var init := b[..|b| - 1];
      assert (a + b)[..|a + b| - 1] == a + init;
      OccurrencesAppend(a, init, w);
    }
  }

  lemma OccurrencesSingle(v: Write, w: Write)
    ensures Occurrences([v], w) == if v == w then 1 else 0
  {
    assert [v][..0] == [];
  }

  /** Writes that open a code block, and writes that close one. */
  function Openers(ws: seq<Write>): nat {
    Occurrences(ws, OpenBlock) + Occurrences(ws, Reopen)
  }

  function Closers(ws: seq<Write>): nat {
    Occurrences(ws, CloseBlock) + Occurrences(ws, FinalClose)
  }

  /** Line `i` begins a maximal run of CODE lines, or of DOC lines. */
  predicate StartsCodeRun(lines: seq<string>, i: nat)
    requires i < |lines|
  {
    !IsDoc(lines[i]) && (i == 0 || IsDoc(lines[i - 1]))
  }

  predicate StartsDocRun(lines: seq<string>, i: nat)
    requires i < |lines|
  {
    IsDoc(lines[i]) && (i == 0 || !IsDoc(lines[i - 1]))
  }

  function CodeRuns(lines: seq<string>): nat
    decreases |lines|
  {
    if lines == [] then 0
    else CodeRuns(lines[..|lines| - 1]) + (if StartsCodeRun(lines, |lines| - 1) then 1 else 0)
  }

  function DocRuns(lines: seq<string>): nat
    decreases |lines|
  {
    if lines == [] then 0
    else DocRuns(lines[..|lines| - 1]) + (if StartsDocRun(lines, |lines| - 1) then 1 else 0)
  }

  /** One iteration writes a close only on a CODE -> DOC transition, an
      opening only on a DOC -> CODE transition, and never the initial opening
      or the final close. */
  lemma EmittedCounts(inCode: bool, line: string, w: Write)
    requires w.IsDelimiter()
    ensures Occurrences(Emitted(inCode, line), w)
         == if (w == CloseBlock && inCode && IsDoc(line)) || (w == Reopen && !inCode && !IsDoc(line)) then 1 else 0
  {
    EmittedIsDelimited(inCode, line);
    var d := Delimiter(inCode, !IsDoc(line));
    OccurrencesAppend(d, [Content(line)], w);
    OccurrencesSingle(Content(line), w);
    if d != [] {
      assert d == [d[0]];
      OccurrencesSingle(d[0], w);
    }
  }

  lemma StartCounts(lines: seq<string>, w: Write)
    requires |lines| > 0
    ensures Occurrences(Start(lines).log, w) == if w == OpenBlock && !IsDoc(lines[0]) then 1 else 0
  {
    if !IsDoc(lines[0]) {
      OccurrencesSingle(OpenBlock, w);
    }
  }

  /** The counts of the machine's writes after the loop: one opening per CODE
      run, one separating close per DOC run not at the start of the file, the
      initial opening only for a file that starts with CODE, and no final
      close yet. */
  lemma {:induction false} RunCounts(lines: seq<string>)
    requires |lines| > 0
    ensures var log := Run(Start(lines), lines).log;
      && Occurrences(log, OpenBlock) == (if IsDoc(lines[0]) then 0 else 1)
      && Occurrences(log, Reopen) + Occurrences(log, OpenBlock) == CodeRuns(lines)
      && Occurrences(log, CloseBlock) + (if IsDoc(lines[0]) then 1 else 0) == DocRuns(lines)
      && Occurrences(log, FinalClose) == 0
    decreases |lines|
  {
    var n := |lines|;
    var init := lines[..n - 1];
    RunSnoc(Start(lines), lines);
    var m := Run(Start(lines), init);
    var e := Emitted(m.inCode, lines[n - 1]);
    if n == 1 {
      assert init == [];
      assert CodeRuns(init) == 0 && DocRuns(init) == 0;
      StartCounts(lines, OpenBlock);
      StartCounts(lines, Reopen);
      StartCounts(lines, CloseBlock);
      StartCounts(lines, FinalClose);
    } else {
      StartOfInit(lines);
      RunCounts(init);
      assert init[n - 2] == lines[n - 2];
      assert m.inCode == !IsDoc(lines[n - 2]);
    }
    EmittedCounts(m.inCode, lines[n - 1], OpenBlock);
    EmittedCounts(m.inCode, lines[n - 1], Reopen);
    EmittedCounts(m.inCode, lines[n - 1], CloseBlock);
    EmittedCounts(m.inCode, lines[n - 1], FinalClose);
    OccurrencesAppend(m.log, e, OpenBlock);
    OccurrencesAppend(m.log, e, Reopen);
    OccurrencesAppend(m.log, e, CloseBlock);
    OccurrencesAppend(m.log, e, FinalClose);
  }

  /** Runs alternate: a file has as many DOC runs as CODE runs, give or take
      the runs at its two ends. */
  lemma {:induction false} CodeRunsVersusDocRuns(lines: seq<string>)
    requires |lines| > 0
    ensures DocRuns(lines) + (if IsDoc(lines[|lines| - 1]) then 0 else 1)
         == CodeRuns(lines) + (if IsDoc(lines[0]) then 1 else 0)
    decreases |lines|
  {
    var n := |lines|;
    var init := lines[..n - 1];
    if n == 1 {
      assert init == [];
      assert CodeRuns(init) == 0 && DocRuns(init) == 0;
    } else {
      assert init[0] == lines[0];
      assert init[n - 2] == lines[n - 2];
      CodeRunsVersusDocRuns(init);
    }
  }

  /** The final close comes after the loop's writes, only for a file that
      ends with CODE. */
  lemma FinishCounts(m: Machine, w: Write)
    ensures Occurrences(Finish(m), w) == Occurrences(m.log, w) + if m.inCode && w == FinalClose then 1 else 0
  {
    if m.inCode {
      OccurrencesAppend(m.log, [FinalClose], w);
      OccurrencesSingle(FinalClose, w);
    }
  }

  /** Every maximal run of CODE lines gets exactly one opening and one close;
      the opening without a leading blank line is written only for a file
      that starts with CODE, and the final close only for one that ends with
      CODE. */
  lemma CodeBlocksMatchCodeRuns(lines: seq<string>)
    requires |lines| > 0
    ensures Openers(WeaveLog(lines)) == CodeRuns(lines)
    ensures Closers(WeaveLog(lines)) == CodeRuns(lines)
    ensures Occurrences(WeaveLog(lines), OpenBlock) == (if IsDoc(lines[0]) then 0 else 1)
    ensures Occurrences(WeaveLog(lines), FinalClose) == (if IsDoc(lines[|lines| - 1]) then 0 else 1)
  {
    RunCounts(lines);
    var m := Run(Start(lines), lines);
    assert WeaveLog(lines) == Finish(m);
    FinishCounts(m, OpenBlock);
    FinishCounts(m, Reopen);
    FinishCounts(m, CloseBlock);
    FinishCounts(m, FinalClose);
    CodeRunsVersusDocRuns(lines);
  }

  /** Each DOC run not at the start of the file is introduced by exactly one
      close; the others begin the file. */
  lemma DocRunsFollowCloses(lines: seq<string>)
    requires |lines| > 0
    ensures Occurrences(WeaveLog(lines), CloseBlock) + (if IsDoc(lines[0]) then 1 else 0) == DocRuns(lines)
  {
    RunCounts(lines);
    FinishCounts(Run(Start(lines), lines), CloseBlock);
  }

  // ----- Nesting ------------------------------------------------------------

  /** How many code blocks are open after `ws`. */
  function Depth(ws: seq<Write>): int {
    Openers(ws) - Closers(ws)
  }

  /** A write that is allowed at the given depth: delimiters open at depth 0
      and close at depth 1, code is written inside a block, prose outside. */
  predicate Legal(depth: int, w: Write) {
    match w
    case OpenBlock => depth == 0
    case Reopen => depth == 0
    case CloseBlock => depth == 1
    case FinalClose => depth == 1
    case Code(_) => depth == 1
    case Doc(_) => depth == 0
  }

  /** Every write of `ws` is legal at the depth it is written at. */
  predicate Nested(ws: seq<Write>)
    decreases |ws|
  {
    ws == [] || (Nested(ws[..|ws| - 1]) && Legal(Depth(ws[..|ws| - 1]), ws[|ws| - 1]))
  }

  /** The depth change of one write. */
  function Shift(w: Write): int {
    if w.OpenBlock? || w.Reopen? then 1 else if w.CloseBlock? || w.FinalClose? then -1 else 0
  }

  lemma NestedSnoc(ws: seq<Write>, w: Write)
    requires Nested(ws) && Legal(Depth(ws), w)
    ensures Nested(ws + [w])
    ensures Depth(ws + [w]) == Depth(ws) + Shift(w)
  {
    assert (ws + [w])[..|ws|] == ws;
    OccurrencesAppend(ws, [w], OpenBlock);
    OccurrencesAppend(ws, [w], Reopen);
    OccurrencesAppend(ws, [w], CloseBlock);
    OccurrencesAppend(ws, [w], FinalClose);
    OccurrencesSingle(w, OpenBlock);
    OccurrencesSingle(w, Reopen);
    OccurrencesSingle(w, CloseBlock);
    OccurrencesSingle(w, FinalClose);
  }

  /** One iteration keeps the output well bracketed, and leaves a block open
      exactly after a CODE line. */
  lemma NestedEmitted(log: seq<Write>, inCode: bool, line: string)
    requires Nested(log) && Depth(log) == if inCode then 1 else 0
    ensures Nested(log + Emitted(inCode, line))
    ensures Depth(log + Emitted(inCode, line)) == if IsDoc(line) then 0 else 1
  {
    var c := Content(line);
    var d := Delimiter(inCode, !IsDoc(line));
    EmittedIsDelimited(inCode, line);
    if d == [] {
      assert log + Emitted(inCode, line) == log + [c];
      NestedSnoc(log, c);
    } else {
      var x := d[0];
      assert d == [x];
      assert log + Emitted(inCode, line) == log + [x] + [c];
      NestedSnoc(log, x);
      NestedSnoc(log + [x], c);
    }
  }

  lemma StartNested(lines: seq<string>)
    requires |lines| > 0
    ensures Nested(Start(lines).log)
    ensures Depth(Start(lines).log) == if Start(lines).inCode then 1 else 0
  {
    if Start(lines).inCode {
      assert [] + [OpenBlock] == [OpenBlock];
      NestedSnoc([], OpenBlock);
    }
  }

  lemma {:induction false} RunNested(lines: seq<string>)
    requires |lines| > 0
    ensures Nested(Run(Start(lines), lines).log)
    ensures Depth(Run(Start(lines), lines).log) == if IsDoc(lines[|lines| - 1]) then 0 else 1
    decreases |lines|
  {
    var n := |lines|;
    var init := lines[..n - 1];
    RunSnoc(Start(lines), lines);
    var m := Run(Start(lines), init);
    if n == 1 {
      assert init == [];
      StartNested(lines);
    } else {
      StartOfInit(lines);
      RunNested(init);
      assert init[n - 2] == lines[n - 2];
    }
    NestedEmitted(m.log, m.inCode, lines[n - 1]);
  }

  /** The output is well bracketed: openings and closes alternate, starting
      with an opening and ending with a close, code lines stand only inside a
      block and prose only outside, and no block is left open. */
  lemma WeaveLogNested(lines: seq<string>)
    requires |lines| > 0
    ensures Nested(WeaveLog(lines)) && Depth(WeaveLog(lines)) == 0
  {
    RunNested(lines);
    var m := Run(Start(lines), lines);
    if m.inCode {
      NestedSnoc(m.log, FinalClose);
    }
  }

  // ----- Recovering the input -----------------------------------------------

  /** The output with the inserted delimiters taken out. */
  function Unframed(ws: seq<Write>): seq<Write>
    decreases |ws|
  {
    if ws == [] then []
    else Unframed(ws[..|ws| - 1]) + (if ws[|ws| - 1].IsDelimiter() then [] else [ws[|ws| - 1]])
  }

  lemma {:induction false} UnframedAppend(a: seq<Write>, b: seq<Write>)
    ensures Unframed(a + b) == Unframed(a) + Unframed(b)
    decreases |b|
  {
    if b == [] {
      assert a + b == a;
    } else {
      var init := b[..|b| - 1];
      assert (a + b)[..|a + b| - 1] == a + init;
      UnframedAppend(a, init);
    }
  }

  lemma UnframedSingle(w: Write)
    ensures Unframed([w]) == if w.IsDelimiter() then [] else [w]
  {
    assert [w][..0] == [];
  }

  /** One iteration adds, delimiters aside, just the line's content. */
  lemma UnframedEmitted(inCode: bool, line: string)
    ensures Unframed(Emitted(inCode, line)) == [Content(line)]
  {
    EmittedIsDelimited(inCode, line);
    var d := Delimiter(inCode, !IsDoc(line));
    UnframedAppend(d, [Content(line)]);
    UnframedSingle(Content(line));
    if d != [] {
      assert d == [d[0]];
      UnframedSingle(d[0]);
    }
  }

  /** The content of each line in input order: its payload for a DOC line,
      the raw line for a CODE line. */
  function Contents(lines: seq<string>): (cs: seq<Write>)
    ensures |cs| == |lines|
    ensures forall i :: 0 <= i < |lines| ==> cs[i] == Content(lines[i])
    decreases |lines|
  {
    if lines == [] then [] else Contents(lines[..|lines| - 1]) + [Content(lines[|lines| - 1])]
  }

  lemma {:induction false} RunUnframed(lines: seq<string>)
    requires |lines| > 0
    ensures Unframed(Run(Start(lines), lines).log) == Contents(lines)
    decreases |lines|
  {
    var n := |lines|;
    var init := lines[..n - 1];
    RunSnoc(Start(lines), lines);
    var m := Run(Start(lines), init);
    if n == 1 {
      assert init == [];
      if m.inCode {
        UnframedSingle(OpenBlock);
      }
    } else {
      StartOfInit(lines);
      RunUnframed(init);
    }
    UnframedAppend(m.log, Emitted(m.inCode, lines[n - 1]));
    UnframedEmitted(m.inCode, lines[n - 1]);
  }

  /** Taking the inserted delimiters out of the output leaves, in input
      order and with nothing dropped or repeated, the payload of every DOC
      line and every CODE line verbatim, terminator and all. */
  lemma DelimitersRemovedGiveContents(lines: seq<string>)
    requires |lines| > 0
    ensures Unframed(WeaveLog(lines)) == Contents(lines)
    ensures forall i :: 0 <= i < |lines| && !IsDoc(lines[i]) ==> Unframed(WeaveLog(lines))[i] == Code(lines[i])
  {
    RunUnframed(lines);
    var m := Run(Start(lines), lines);
    if m.inCode {
      UnframedAppend(m.log, [FinalClose]);
      UnframedSingle(FinalClose);
      assert Contents(lines) + [] == Contents(lines);
    }
  }

  // ----- Boundary cases -----------------------------------------------------

  predicate AllDoc(lines: seq<string>) {
    forall i :: 0 <= i < |lines| ==> IsDoc(lines[i])
  }

  predicate AllCode(lines: seq<string>) {
    forall i :: 0 <= i < |lines| ==> !IsDoc(lines[i])
  }

  /** An iteration on a line of the mode's own class writes only the line's
      content. */
  lemma EmittedSameClass(inCode: bool, line: string)
    requires inCode == !IsDoc(line)
    ensures Emitted(inCode, line) == [Content(line)]
  {
  }

  lemma ContentsSnoc(lines: seq<string>)
    requires lines != []
    ensures Contents(lines) == Contents(lines[..|lines| - 1]) + [Content(lines[|lines| - 1])]
  {
  }

  /** An iteration on a line of the same class as the line before writes
      only its content. */
  lemma RunSameClassLast(lines: seq<string>)
    requires |lines| >= 2
    requires IsDoc(lines[|lines| - 2]) == IsDoc(lines[|lines| - 1])
    ensures Run(Start(lines), lines).log == Run(Start(lines), lines[..|lines| - 1]).log + [Content(lines[|lines| - 1])]
  {
    var n := |lines|;
    var init := lines[..n - 1];
    var m := Run(Start(lines), init);
    RunSnoc(Start(lines), lines);
    assert init[|init| - 1] == lines[n - 2];
    EmittedSameClass(m.inCode, lines[n - 1]);
  }

  lemma {:induction false} RunUniform(lines: seq<string>)
    requires |lines| > 0
    requires AllDoc(lines) || AllCode(lines)
    ensures Run(Start(lines), lines).log == Start(lines).log + Contents(lines)
    decreases |lines|
  {
    var n := |lines|;
    if n == 1 {
      RunOne(Start(lines), lines[0]);
      assert lines == [lines[0]];
      FirstLineNoTransition(lines);
      ContentsSnoc(lines);
      assert Contents(lines[..0]) == [];
      assert Contents(lines) == [Content(lines[0])];
    } else {
      var init := lines[..n - 1];
      var c := [Content(lines[n - 1])];
      StartOfInit(lines);
      assert AllDoc(lines) ==> AllDoc(init);
      assert AllCode(lines) ==> AllCode(init);
      RunUniform(init);
      assert IsDoc(lines[n - 2]) == IsDoc(lines[n - 1]);
      RunSameClassLast(lines);
      ContentsSnoc(lines);
      assert Run(Start(lines), lines).log == Start(lines).log + Contents(init) + c;
      Assoc(Start(lines).log, Contents(init), c);
    }
  }

  /** A file of DOC lines only is written as its payloads, one printed line
      each, with no delimiter at all. */
  lemma AllDocFile(lines: seq<string>)
    requires |lines| > 0 && AllDoc(lines)
    ensures WeaveLog(lines) == Contents(lines)
    ensures forall i :: 0 <= i < |lines| ==> WeaveLog(lines)[i] == Doc(Payload(lines[i]))
    ensures Weave(lines) == Render(Contents(lines))
  {
    RunUniform(lines);
    assert [] + Contents(lines) == Contents(lines);
  }

  lemma {:induction false} RenderAppend(a: seq<Write>, b: seq<Write>)
    ensures Render(a + b) == Render(a) + Render(b)
    decreases |b|
  {
    if b == [] {
      assert a + b == a;
    } else {
      var init, w := b[..|b| - 1], b[|b| - 1];
      assert a + b == (a + init) + [w];
      RenderSnoc(a + init, w);
      RenderSnoc(init, w);
      assert b == init + [w];
      RenderAppend(a, init);
      ConcatAssoc(Render(a), Render(init), Output(w));
    }
  }

  /** The concatenation of a sequence of strings. */
  function Concat(ss: seq<string>): string
    decreases |ss|
  {
    if ss == [] then [] else Concat(ss[..|ss| - 1]) + ss[|ss| - 1]
  }

  lemma {:induction false} RenderCodeLines(lines: seq<string>)
    requires AllCode(lines)
    ensures Render(Contents(lines)) == Concat(lines)
    decreases |lines|
  {
    if lines != [] {
      var init := lines[..|lines| - 1];
      assert AllCode(init);
      RenderCodeLines(init);
      assert Contents(lines)[..|lines| - 1] == Contents(init);
    }
  }

  lemma OpeningThenRest(rest: seq<Write>)
    ensures Render([OpenBlock] + rest) == "[source,nim]\n----\n" + Render(rest)
  {
    RenderAppend([OpenBlock], rest);
    RenderSnoc([], OpenBlock);
    assert OpenText == "[source,nim]\n----\n";
  }

  /** The text of a code block around the writes `body`. */
  lemma FramedText(body: seq<Write>)
    ensures Render([OpenBlock] + body + [FinalClose]) == "[source,nim]\n----\n" + Render(body) + "\n----\n"
  {
    var inner := [OpenBlock] + body;
    OpeningThenRest(body);
    RenderSnoc(inner, FinalClose);
    assert FinalCloseText == "\n----\n";
  }

  lemma ClosingText(ws: seq<Write>)
    ensures Render(ws + [FinalClose]) == Render(ws) + "\n----\n"
  {
    RenderSnoc(ws, FinalClose);
    assert FinalCloseText == "\n----\n";
  }

  /** A file of CODE lines only is one code block: the opening, every line
      verbatim, then a blank line and the close. */
  lemma AllCodeFile(lines: seq<string>)
    requires |lines| > 0 && AllCode(lines)
    ensures WeaveLog(lines) == [OpenBlock] + Contents(lines) + [FinalClose]
    ensures Weave(lines) == "[source,nim]\n----\n" + Concat(lines) + "\n----\n"
  {
    RunUniform(lines);
    FramedText(Contents(lines));
    RenderCodeLines(lines);
  }

  // ----- How the output begins and ends -------------------------------------

  /** The output begins with the opening write exactly when the first line is
      CODE; the text then begins with "[source,nim]" and "----". */
  lemma OpensIffFirstLineCode(lines: seq<string>)
    requires |lines| > 0
    ensures |WeaveLog(lines)| > 0
    ensures WeaveLog(lines)[0] == OpenBlock <==> !IsDoc(lines[0])
    ensures !IsDoc(lines[0]) ==> "[source,nim]\n----\n" <= Weave(lines)
  {
    RunFromStart(lines);
    var m := Run(Start(lines), lines);
    var rest := Body(lines) + if m.inCode then [FinalClose] else [];
    Assoc(Start(lines).log, Body(lines), if m.inCode then [FinalClose] else []);
    assert WeaveLog(lines) == Start(lines).log + rest;
    assert rest[0] == Content(lines[0]);
    if !IsDoc(lines[0]) {
      OpeningThenRest(rest);
    }
  }

  /** The output ends with the final close exactly when the last line is
      CODE; the text then ends with a blank line and "----". */
  lemma ClosesIffLastLineCode(lines: seq<string>)
    requires |lines| > 0
    ensures |WeaveLog(lines)| > 0
    ensures WeaveLog(lines)[|WeaveLog(lines)| - 1] == FinalClose <==> !IsDoc(lines[|lines| - 1])
    ensures !IsDoc(lines[|lines| - 1]) ==> Weave(lines) == Render(Run(Start(lines), lines).log) + "\n----\n"
  {
    var m := Run(Start(lines), lines);
    if m.inCode {
      ClosingText(m.log);
    } else {
      assert WeaveLog(lines) == m.log;
    }
  }

  // ----- Lines of literal text ----------------------------------------------

  /** A marker line: the marker, a space, a payload that does not end in
      whitespace (it may be empty, or start with whitespace), and the
      terminator. */
  lemma MarkedLine(p: string)
    requires p == [] || !IsSpace(p[|p| - 1])
    ensures IsDoc(MarkerPrefix + p + "\n") && Content(MarkerPrefix + p + "\n") == Doc(p)
  {
    var line := MarkerPrefix + p + "\n";
    TrimStartAfterSpace([], line);
    assert [] + line == line;
    if p == [] {
      assert line == Marker + " \n";
      TrimEndBeforeSpace(Marker, " \n");
    } else {
      TrimEndBeforeSpace(MarkerPrefix + p, "\n");
      assert (MarkerPrefix + p)[..3] == MarkerPrefix;
      assert (MarkerPrefix + p)[3..] == p;
    }
  }

  /** A bare marker line. */
  lemma BareLine()
    ensures IsDoc(Marker + "\n") && Content(Marker + "\n") == Doc([])
  {
    StripFramed([], Marker, "\n");
    assert [] + Marker + "\n" == Marker + "\n";
  }

  /** A code line: any text that is not marked once stripped (indented or
      with trailing whitespace included), and the terminator. */
  lemma PlainLine(s: string)
    requires !(MarkerPrefix <= Strip(s)) && Strip(s) != Marker
    ensures !IsDoc(s + "\n") && Content(s + "\n") == Code(s + "\n")
  {
    PaddingIgnored([], s, "\n");
    assert [] + s + "\n" == s + "\n";
  }

  lemma RunOne(m: Machine, a: string)
    ensures Run(m, [a]) == Step(m, a)
  {
    assert [a][..0] == [];
  }

  lemma RunTwo(m: Machine, a: string, b: string)
    ensures Run(m, [a, b]) == Step(Step(m, a), b)
  {
    assert [a, b][..1] == [a];
    RunOne(m, a);
  }

  lemma RunThree(m: Machine, a: string, b: string, c: string)
    ensures Run(m, [a, b, c]) == Step(Step(Step(m, a), b), c)
  {
    var abc := [a, b, c];
    assert abc[..2] == [a, b] && abc[2] == c;
    assert Run(m, abc) == Step(Run(m, [a, b]), c);
    RunTwo(m, a, b);
  }

  /** The delimiters spelled out. */
  lemma DelimiterTexts()
    ensures Header == "[source,nim]" && Rule == "----"
    ensures OpenText == "[source,nim]\n" + "----\n"
    ensures CloseText == "----\n"
    ensures ReopenText == "\n" + "[source,nim]\n" + "----\n"
    ensures FinalCloseText == "\n" + "----\n"
  {
  }

  /** The text of two prose writes. */
  lemma DocDocText(p: string, q: string)
    ensures Render([] + [Doc(p)] + [Doc(q)]) == p + "\n" + q + "\n"
  {
    RenderSnoc([] + [Doc(p)], Doc(q));
    RenderSnoc([], Doc(p));
  }

  /** Two DOC lines are printed as their two payloads. */
  lemma WeaveDocDoc(a: string, b: string, p: string, q: string)
    requires Content(a) == Doc(p) && Content(b) == Doc(q)
    ensures Weave([a, b]) == p + "\n" + q + "\n"
  {
    assert IsDoc(a) && IsDoc(b);
    RunTwo(Start([a, b]), a, b);
    assert WeaveLog([a, b]) == [] + [Doc(p)] + [Doc(q)];
    DocDocText(p, q);
  }

  /** The converse of OpensIffFirstLineCode fails for the text: prose lines
      can spell the opening, so the text alone does not tell the first line's
      class. */
  lemma DocLinesCanSpellTheOpening()
    ensures var lines := ["#- [source,nim]\n", "#- ----\n"];
      IsDoc(lines[0]) && Weave(lines) == OpenText
  {
    var a, b := "#- [source,nim]\n", "#- ----\n";
    DelimiterTexts();
    assert a == MarkerPrefix + Header + "\n";
    assert b == MarkerPrefix + Rule + "\n";
    MarkedLine(Header);
    MarkedLine(Rule);
    WeaveDocDoc(a, b, Header, Rule);
  }

  /** Likewise for ClosesIffLastLineCode: a bare marker followed by a "----"
      prose line ends the text as a final close would. */
  lemma DocLinesCanSpellTheClose()
    ensures var lines := ["#-\n", "#- ----\n"];
      IsDoc(lines[1]) && Weave(lines) == FinalCloseText
  {
    var a, b := "#-\n", "#- ----\n";
    DelimiterTexts();
    assert a == Marker + "\n";
    assert b == MarkerPrefix + Rule + "\n";
    BareLine();
    MarkedLine(Rule);
    WeaveDocDoc(a, b, [], Rule);
    assert [] + "\n" == "\n";
  }

  // ----- Weaving the output again -------------------------------------------

  /** The line a write of prose or code stands for in a normalised input:
      prose becomes a marker line "#- payload", code stays as it is. */
  function Unweave(ws: seq<Write>): seq<string>
    decreases |ws|
  {
    if ws == [] then []
    else
      Unweave(ws[..|ws| - 1])
      + match ws[|ws| - 1]
        case Doc(p) => [MarkerPrefix + p + "\n"]
        case Code(line) => [line]
        case _ => []
  }

  /** The normal form of a line: the same class and the same content. */
  function Canonical(line: string): string {
    if IsDoc(line) then MarkerPrefix + Payload(line) + "\n" else line
  }

  lemma CanonicalLine(line: string)
    ensures IsDoc(Canonical(line)) == IsDoc(line)
    ensures Content(Canonical(line)) == Content(line)
  {
    if IsDoc(line) {
      PayloadShape(line);
      var p := Payload(line);
      if p == [] {
        StripFramed([], Marker, " \n");
        assert [] + Marker + " \n" == Canonical(line);
      } else {
        StripFramed([], MarkerPrefix + p, "\n");
        assert [] + (MarkerPrefix + p) + "\n" == Canonical(line);
        assert (MarkerPrefix + p)[3..] == p;
      }
    }
  }

  lemma {:induction false} UnweaveIgnoresDelimiters(ws: seq<Write>)
    ensures Unweave(ws) == Unweave(Unframed(ws))
    decreases |ws|
  {
    if ws != [] {
      var init := ws[..|ws| - 1];
      var w := ws[|ws| - 1];
      UnweaveIgnoresDelimiters(init);
      var u := Unframed(init);
      if !w.IsDelimiter() {
        assert (u + [w])[..|u|] == u;
      } else {
        assert u + [] == u;
      }
    }
  }

  lemma {:induction false} UnweaveContents(lines: seq<string>)
    ensures |Unweave(Contents(lines))| == |lines|
    ensures forall i :: 0 <= i < |lines| ==> Unweave(Contents(lines))[i] == Canonical(lines[i])
    decreases |lines|
  {
    if lines != [] {
      var init := lines[..|lines| - 1];
      UnweaveContents(init);
      assert Contents(lines)[..|lines| - 1] == Contents(init);
    }
  }

  /** An iteration depends on a line only through its class and content. */
  lemma EmittedCongruent(inCode: bool, x: string, y: string)
    requires IsDoc(x) == IsDoc(y) && Content(x) == Content(y)
    ensures Emitted(inCode, x) == Emitted(inCode, y)
  {
    EmittedIsDelimited(inCode, x);
    EmittedIsDelimited(inCode, y);
  }

  /** Two files whose lines agree, one by one, in class and content are
      woven to the same output. */
  lemma {:induction false} RunCongruent(a: seq<string>, b: seq<string>)
    requires |a| == |b| > 0
    requires forall i :: 0 <= i < |a| ==> IsDoc(a[i]) == IsDoc(b[i]) && Content(a[i]) == Content(b[i])
    ensures Run(Start(a), a) == Run(Start(b), b)
    decreases |a|
  {
    var n := |a|;
    var ia, ib := a[..n - 1], b[..n - 1];
    if n == 1 {
      assert ia == [] && ib == [];
      assert Start(a) == Start(b);
    } else {
      StartOfInit(a);
      StartOfInit(b);
      assert forall i :: 0 <= i < |ia| ==> ia[i] == a[i] && ib[i] == b[i];
      RunCongruent(ia, ib);
    }
    var m := Run(Start(a), ia);
    assert m == Run(Start(b), ib);
    RunSnoc(Start(a), a);
    RunSnoc(Start(b), b);
    assert IsDoc(a[n - 1]) == IsDoc(b[n - 1]) && Content(a[n - 1]) == Content(b[n - 1]);
    EmittedCongruent(m.inCode, a[n - 1], b[n - 1]);
  }

  /** Turning the output back into a file (each payload behind a marker, each
      code line as it was) gives one line per input line, the normal form of
      each, and a file that is woven to exactly the same output. */
  lemma ReweaveRoundTrip(lines: seq<string>)
    requires |lines| > 0
    ensures var again := Unweave(WeaveLog(lines));
      && |again| == |lines|
      && (forall i :: 0 <= i < |lines| ==> again[i] == Canonical(lines[i]))
      && WeaveLog(again) == WeaveLog(lines)
      && Weave(again) == Weave(lines)
  {
    var again := Unweave(WeaveLog(lines));
    UnweaveIgnoresDelimiters(WeaveLog(lines));
    DelimitersRemovedGiveContents(lines);
    UnweaveContents(lines);
    forall i | 0 <= i < |lines|
      ensures IsDoc(again[i]) == IsDoc(lines[i]) && Content(again[i]) == Content(lines[i])
    {
      CanonicalLine(lines[i]);
    }
    RunCongruent(again, lines);
  }

  // ----- Worked examples ---------------------------------------------------

  lemma DocCodeDocText(p: string, b: string, q: string)
    ensures Render([] + [Doc(p)] + [Reopen, Code(b)] + [CloseBlock, Doc(q)])
         == p + "\n" + "\n" + "[source,nim]\n" + "----\n" + b + "----\n" + q + "\n"
  {
    var l1 := [] + [Doc(p)];
    var l2 := l1 + [Reopen, Code(b)];
    DelimiterTexts();
    RenderSnoc([], Doc(p));
    var t1 := p + "\n";
    assert Render(l1) == t1;
    RenderAppend2(l1, Reopen, Code(b));
    ConcatAssoc(t1, "\n" + "[source,nim]\n", "----\n");
    ConcatAssoc(t1, "\n", "[source,nim]\n");
    var t2 := t1 + "\n" + "[source,nim]\n" + "----\n" + b;
    assert Render(l2) == t2;
    RenderAppend2(l2, CloseBlock, Doc(q));
    ConcatAssoc(t2 + "----\n", q, "\n");
  }

  /** DOC, CODE, DOC: the prose, a code block holding the code line, the
      prose. */
  lemma WeaveDocCodeDoc(a: string, b: string, c: string, p: string, q: string)
    requires Content(a) == Doc(p) && !IsDoc(b) && Content(c) == Doc(q)
    ensures Weave([a, b, c])
         == p + "\n" + "\n" + "[source,nim]\n" + "----\n" + b + "----\n" + q + "\n"
  {
    assert IsDoc(a) && IsDoc(c);
    RunThree(Start([a, b, c]), a, b, c);
    assert WeaveLog([a, b, c]) == [] + [Doc(p)] + [Reopen, Code(b)] + [CloseBlock, Doc(q)];
    DocCodeDocText(p, b, q);
  }

  lemma CodeDocCodeText(a: string, q: string, c: string)
    ensures Render([OpenBlock] + [Code(a)] + [CloseBlock, Doc(q)] + [Reopen, Code(c)] + [FinalClose])
         == "[source,nim]\n" + "----\n" + a + "----\n" + q + "\n"
          + "\n" + "[source,nim]\n" + "----\n" + c + "\n" + "----\n"
  {
    var l0 := [OpenBlock];
    var l1 := l0 + [Code(a)];
    var l2 := l1 + [CloseBlock, Doc(q)];
    var l3 := l2 + [Reopen, Code(c)];
    DelimiterTexts();
    var t0 := "[source,nim]\n" + "----\n";
    assert l0 == [] + [OpenBlock];
    RenderSnoc([], OpenBlock);
    assert Render(l0) == t0;
    RenderSnoc(l0, Code(a));
    var t1 := t0 + a;
    RenderAppend2(l1, CloseBlock, Doc(q));
    ConcatAssoc(t1 + "----\n", q, "\n");
    var t2 := t1 + "----\n" + q + "\n";
    assert Render(l2) == t2;
    RenderAppend2(l2, Reopen, Code(c));
    ConcatAssoc(t2, "\n" + "[source,nim]\n", "----\n");
    ConcatAssoc(t2, "\n", "[source,nim]\n");
    var t3 := t2 + "\n" + "[source,nim]\n" + "----\n" + c;
    assert Render(l3) == t3;
    RenderSnoc(l3, FinalClose);
    ConcatAssoc(t3, "\n", "----\n");
  }

  /** CODE, DOC, CODE: a code block, the prose, a second code block closed
      at the end. */
  lemma WeaveCodeDocCode(a: string, b: string, c: string, q: string)
    requires !IsDoc(a) && Content(b) == Doc(q) && !IsDoc(c)
    ensures Weave([a, b, c])
         == "[source,nim]\n" + "----\n" + a + "----\n" + q + "\n"
          + "\n" + "[source,nim]\n" + "----\n" + c + "\n" + "----\n"
  {
    assert IsDoc(b);
    RunThree(Start([a, b, c]), a, b, c);
    assert WeaveLog([a, b, c]) == [OpenBlock] + [Code(a)] + [CloseBlock, Doc(q)] + [Reopen, Code(c)] + [FinalClose];
    CodeDocCodeText(a, q, c);
  }

  /** The classes and contents of the lines of the two scenarios below. */
  lemma ScenarioDocLines()
    ensures Content("#- Title\n") == Doc("Title") && Content("#- done\n") == Doc("done")
    ensures Content("#- comment\n") == Doc("comment")
  {
    assert "#- Title\n" == MarkerPrefix + "Title" + "\n";
    assert "#- done\n" == MarkerPrefix + "done" + "\n";
    assert "#- comment\n" == MarkerPrefix + "comment" + "\n";
    MarkedLine("Title");
    MarkedLine("done");
    MarkedLine("comment");
  }

  lemma ScenarioCodeLines()
    ensures !IsDoc("let x = 1\n") && !IsDoc("let y = 2\n")
  {
    assert "let x = 1\n" == "let x = 1" + "\n";
    assert "let y = 2\n" == "let y = 2" + "\n";
    StripFramed([], "let x = 1", []);
    StripFramed([], "let y = 2", []);
    assert [] + "let x = 1" + [] == "let x = 1";
    assert [] + "let y = 2" + [] == "let y = 2";
    PlainLine("let x = 1");
    PlainLine("let y = 2");
  }

  /** A title, one code line, a closing remark. The expected output is
      written one output line per string. */
  lemma ScenarioTitleCodeRemark()
    ensures Weave(["#- Title\n", "let x = 1\n", "#- done\n"])
         == "Title\n" + "\n" + "[source,nim]\n" + "----\n" + "let x = 1\n" + "----\n" + "done\n"
  {
    ScenarioDocLines();
    ScenarioCodeLines();
    WeaveDocCodeDoc("#- Title\n", "let x = 1\n", "#- done\n", "Title", "done");
    assert "Title" + "\n" == "Title\n" && "done" + "\n" == "done\n";
    ConcatAssoc("Title\n" + "\n" + "[source,nim]\n" + "----\n" + "let x = 1\n" + "----\n", "done", "\n");
  }

  /** Code, a comment, more code: two blocks, the second closed at the end. */
  lemma ScenarioCodeCommentCode()
    ensures Weave(["let x = 1\n", "#- comment\n", "let y = 2\n"])
         == "[source,nim]\n" + "----\n" + "let x = 1\n" + "----\n" + "comment\n"
          + "\n" + "[source,nim]\n" + "----\n" + "let y = 2\n" + "\n" + "----\n"
  {
    ScenarioDocLines();
    ScenarioCodeLines();
    WeaveCodeDocCode("let x = 1\n", "#- comment\n", "let y = 2\n", "comment");
    assert "comment" + "\n" == "comment\n";
    ConcatAssoc("[source,nim]\n" + "----\n" + "let x = 1\n" + "----\n", "comment", "\n");
  }

  /** A lone bare marker prints one empty line. */
  lemma ScenarioBareMarker()
    ensures Weave(["#-\n"]) == "\n"
  {
    var a := "#-\n";
    assert a == Marker + "\n";
    BareLine();
    RunOne(Start([a]), a);
    assert WeaveLog([a]) == [] + [Doc("")];
    RenderSnoc([], Doc(""));
  }
}
