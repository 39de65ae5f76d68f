/** The weaver of weave.py: a single pass over the lines of a literate source
    file that turns documentation lines into prose and wraps every run of code
    lines in an AsciiDoc source block.

    Standard output is described twice: as the log of the writes the program
    makes (one `Write` per call of `print` or `sys.stdout.write`), and as the
    text those writes put on the stream (`Render`). */
module Weaver {
  import opened Strings

  /** A line whose stripped form is the marker, or starts with the marker
      and a space, is documentation. */
  const Marker := "#-"
  const MarkerPrefix := "#- "

  /** The annotation that opens a code block, and the block delimiter. */
  const Language := "nim"
  const Header := "[source," + Language + "]"
  const Rule := "----"


  /** The classification of weave.py: a line is DOC when `line.strip()`
      starts with "#- " or equals "#-"; every other line is CODE. */
  predicate IsDoc(line: string) {
    var t := Strip(line);
    MarkerPrefix <= t || t == Marker
  }

  /** The prose a DOC line contributes, `line.strip()[3:]`. */
  function Payload(line: string): string {
    Drop(Strip(line), 3)
  }

  /** What Python's `print(s)` puts on standard output. */
  function Print(s: string): string {
    s + "\n"
  }

  /** The text of the four delimiters: each is one `print` call. */
  const OpenText := Print(Header + "\n" + Rule)
  const CloseText := Print(Rule)
  const ReopenText := Print("\n" + Header + "\n" + Rule)
  const FinalCloseText := Print("\n" + Rule)

  /** One write to standard output. */
  datatype Write =
    | OpenBlock          // print("[source,nim]\n----") before the first line
    | CloseBlock         // print("----") on a CODE -> DOC transition
    | Reopen             // print("\n[source,nim]\n----") on a DOC -> CODE transition
    | FinalClose         // print("\n----") after the last line
    | Doc(payload: string)   // print(payload) for a DOC line
    | Code(line: string)     // sys.stdout.write(line) for a CODE line
  {
    /** The writes the program adds around the input's own text. */
    predicate IsDelimiter() {
      OpenBlock? || CloseBlock? || Reopen? || FinalClose?
    }
  }

  /** The text one write puts on standard output. */
  function Output(w: Write): string {
    match w
    case OpenBlock => OpenText
    case CloseBlock => CloseText
    case Reopen => ReopenText
    case FinalClose => FinalCloseText
    case Doc(p) => Print(p)
    case Code(line) => line
  }

  /** The text a sequence of writes puts on standard output, in order. */
  function Render(ws: seq<Write>): string
    decreases |ws|
  {
    if ws == [] then [] else Render(ws[..|ws| - 1]) + Output(ws[|ws| - 1])
  }

  /** The write that carries a line's own text: the payload of a DOC line or
      the raw CODE line. */
  function Content(line: string): Write {
    if IsDoc(line) then Doc(Payload(line)) else Code(line)
  }

  /** The state of the program between lines: the flag `in_code` and what
      has been written so far. */
  datatype Machine = Machine(inCode: bool, log: seq<Write>)

  /** Lines 8-15 of weave.py: the initial mode is the classification of the
      first line, and a code block is opened when that line is CODE. */
  function Start(lines: seq<string>): Machine
    requires |lines| > 0
  {
    var inCode := !IsDoc(lines[0]);
    Machine(inCode, if inCode then [OpenBlock] else [])
  }

  /** What the loop body of weave.py writes for `line` when `in_code` is
      `inCode`: a delimiter exactly when the line's class differs from the
      mode, then the line's content. */
  function Emitted(inCode: bool, line: string): (e: seq<Write>)
    ensures 1 <= |e| <= 2 && e[|e| - 1] == Content(line)
    ensures |e| == 2 <==> inCode == IsDoc(line)
    ensures |e| == 2 ==> e[0] == (if inCode then CloseBlock else Reopen)
  {
    if IsDoc(line) then
      if inCode then [CloseBlock, Doc(Payload(line))] else [Doc(Payload(line))]
    else
      if inCode then [Code(line)] else [Reopen, Code(line)]
  }

  /** The value of `in_code` after the loop body: it is cleared on a CODE ->
      DOC transition, set on a DOC -> CODE transition and left alone
      otherwise, so that it always ends up telling the class of the line. */
  function NextMode(inCode: bool, line: string): (b: bool)
    ensures b == !IsDoc(line)
  {
    if IsDoc(line) then (if inCode then false else inCode)
    else (if inCode then inCode else true)
  }

  /** One iteration of the loop at lines 18-35 of weave.py. */
  function Step(m: Machine, line: string): (r: Machine)
    ensures r.inCode == !IsDoc(line)
    ensures r.log == m.log + Emitted(m.inCode, line)
    ensures |m.log| < |r.log| <= |m.log| + 2
    ensures r.log[|r.log| - 1] == Content(line)
  {
    Machine(NextMode(m.inCode, line), m.log + Emitted(m.inCode, line))
  }

  /** The loop over `lines`, from state `m`: each line adds at least one
      write, and the mode afterwards is the class of the last line. */
  function Run(m: Machine, lines: seq<string>): (r: Machine)
    ensures |r.log| >= |m.log| + |lines|
    ensures lines != [] ==> r.inCode == !IsDoc(lines[|lines| - 1])
    ensures lines != [] ==> r.log[|r.log| - 1] == Content(lines[|lines| - 1])
    ensures lines == [] ==> r == m
    decreases |lines|
  {
    if lines == [] then m else Step(Run(m, lines[..|lines| - 1]), lines[|lines| - 1])
  }

  /** The loop only appends: whatever was written before it is kept, in
      place, at the front of the log. */
  lemma {:induction false} RunExtends(m: Machine, lines: seq<string>)
    ensures |m.log| <= |Run(m, lines).log| && Run(m, lines).log[..|m.log|] == m.log
    decreases |lines|
  {
    if lines != [] {
      var p := Run(m, lines[..|lines| - 1]);
      RunExtends(m, lines[..|lines| - 1]);
      assert Run(m, lines).log == p.log + Emitted(p.inCode, lines[|lines| - 1]);
      assert (p.log + Emitted(p.inCode, lines[|lines| - 1]))[..|m.log|] == p.log[..|m.log|];
    }
  }

  /** Lines 37-38 of weave.py: an open code block is closed at the end. */
  function Finish(m: Machine): seq<Write> {
    if m.inCode then m.log + [FinalClose] else m.log
  }

  /** Every write the program makes for a non-empty file of `lines`. */
  function WeaveLog(lines: seq<string>): seq<Write>
    requires |lines| > 0
  {
    Finish(Run(Start(lines), lines))
  }

  /** Everything the program puts on standard output for `lines`. */
  function Weave(lines: seq<string>): string
    requires |lines| > 0
  {
    Render(WeaveLog(lines))
  }

  lemma RenderSnoc(ws: seq<Write>, w: Write)
    ensures Render(ws + [w]) == Render(ws) + Output(w)
  {
    assert (ws + [w])[..|ws|] == ws;
  }

  lemma RenderAppend2(ws: seq<Write>, v: Write, w: Write)
    ensures Render(ws + [v, w]) == Render(ws) + Output(v) + Output(w)
  {
    assert ws + [v, w] == ws + [v] + [w];
    RenderSnoc(ws + [v], w);
    RenderSnoc(ws, v);
  }

  /** The loop after i + 1 lines is the loop after i lines and one more
      iteration. */
  lemma RunPrefix(m: Machine, lines: seq<string>, i: nat)
    requires i < |lines|
    ensures Run(m, lines[..i + 1]) == Step(Run(m, lines[..i]), lines[i])
  {
    assert lines[..i + 1][..i] == lines[..i];
  }

  /** The text one iteration appends, branch by branch as weave.py writes
      it. */
  lemma StepText(m: Machine, line: string)
    ensures IsDoc(line) && m.inCode ==> Render(Step(m, line).log) == Render(m.log) + CloseText + Print(Payload(line))
    ensures IsDoc(line) && !m.inCode ==> Render(Step(m, line).log) == Render(m.log) + Print(Payload(line))
    ensures !IsDoc(line) && m.inCode ==> Render(Step(m, line).log) == Render(m.log) + line
    ensures !IsDoc(line) && !m.inCode ==> Render(Step(m, line).log) == Render(m.log) + ReopenText + line
  {
    if IsDoc(line) {
      if m.inCode {
        RenderAppend2(m.log, CloseBlock, Doc(Payload(line)));
      } else {
        RenderSnoc(m.log, Doc(Payload(line)));
      }
    } else {
      if m.inCode {
        RenderSnoc(m.log, Code(line));
      } else {
        RenderAppend2(m.log, Reopen, Code(line));
      }
    }
  }

  /** weave.py itself: the lines of the file (as `readlines` gives them) in,
      the text written to standard output out. The flag `inCode` and the
      accumulated output are updated exactly where the script updates
      `in_code` and writes. */
  method WeaveLines(lines: seq<string>) returns (out: string)
    requires |lines| > 0
    ensures out == Weave(lines)
  {
    var inCode: bool;
    var first := Strip(lines[0]);
    if MarkerPrefix <= first || first == Marker {
      inCode := false;
    } else {
      inCode := true;
    }
    out := "";
    if inCode {
      out := out + Print(Header + "\n" + Rule);
    }
    assert lines[..0] == [];
    for i := 0 to |lines|
      invariant inCode == Run(Start(lines), lines[..i]).inCode
      invariant out == Render(Run(Start(lines), lines[..i]).log)
    {
      ghost var before := Run(Start(lines), lines[..i]);
      RunPrefix(Start(lines), lines, i);
      var line := lines[i];
      StepText(before, line);
      var clork := Strip(line);
      if MarkerPrefix <= clork || clork == Marker {
        if inCode {
          // CODE -> DOC transition
          inCode := false;
          out := out + Print(Rule);
          out := out + Print(Drop(clork, 3));
        } else {
          out := out + Print(Drop(clork, 3));
        }
      } else {
        if inCode {
          out := out + line;
        } else {
          // DOC -> CODE transition
          out := out + Print("\n" + Header + "\n" + Rule);
          out := out + line;
          inCode := true;
        }
      }
    }
    assert lines[..|lines|] == lines;
    if inCode {
      out := out + Print("\n" + Rule);
      RenderSnoc(Run(Start(lines), lines).log, FinalClose);
    }
  }
}
