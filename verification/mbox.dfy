/** The mbox line splitter of `scan_emails_for_tracking_pixels`: the archive is
    read line by line, every line is appended to a pending buffer, and a line
    that starts with the five bytes "From " closes the buffer (the delimiter
    line stays at the END of the block it closes). Whatever is pending when
    the file ends forms one last block, provided it holds at least one byte. */
module Mbox {

  newtype byte = x: int | 0 <= x < 256

  /** One line as the file iterator yields it, terminator included. */
  type Line = seq<byte>

  /** One raw message as handed to the MIME parser. */
  type Block = seq<Line>

  /** The bytes of "From ". */
  const FromMarker: seq<byte> := [0x46, 0x72, 0x6F, 0x6D, 0x20]

  predicate IsDelimiter(line: Line) {
    |FromMarker| <= |line| && line[..|FromMarker|] == FromMarker
  }

  /** The bytes a run of lines contributes to the `bytearray` buffer. */
  function Bytes(lines: seq<Line>): seq<byte>
    decreases |lines|
  {
    if |lines| == 0 then [] else Bytes(lines[..|lines| - 1]) + lines[|lines| - 1]
  }

  /** Python's truth test `if email_data` on the buffer. */
  predicate HasContent(pending: seq<Line>) {
    Bytes(pending) != []
  }

  /** The lines of a sequence of blocks, in order. */
  function Concat(blocks: seq<Block>): seq<Line>
    decreases |blocks|
  {
    if |blocks| == 0 then [] else Concat(blocks[..|blocks| - 1]) + blocks[|blocks| - 1]
  }

  /** The splitter's state between two lines: the blocks already handed on
      and the pending buffer. */
  datatype SplitterState = SplitterState(emitted: seq<Block>, pending: Block)

  /** One iteration of the read loop: append, then test for the delimiter. */
  function Step(s: SplitterState, line: Line): SplitterState {
    var pending := s.pending + [line];
    if IsDelimiter(line) && HasContent(pending) then SplitterState(s.emitted + [pending], [])
    else SplitterState(s.emitted, pending)
  }

  /** The state after reading every line of `lines`. */
  function Run(lines: seq<Line>): SplitterState
    decreases |lines|
  {
    if |lines| == 0 then SplitterState([], [])
    else Step(Run(lines[..|lines| - 1]), lines[|lines| - 1])
  }

  /** The blocks handed to message processing, in read order: the emitted ones
      and then the pending buffer if it holds any byte. No block is empty. */
  function Split(lines: seq<Line>): (r: seq<Block>)
    ensures forall i :: 0 <= i < |r| ==> HasContent(r[i])
  {
    var s := Run(lines);
    assert forall i :: 0 <= i < |s.emitted| ==> HasContent(s.emitted[i]) by {
      RunInvariant(lines);
      forall i | 0 <= i < |s.emitted|
        ensures HasContent(s.emitted[i])
      {
        ClosedBlockHasContent(s.emitted[i]);
      }
    }
    if HasContent(s.pending) then s.emitted + [s.pending] else s.emitted
  }

  /** The splitter an mbox archive calls for: a "From " line OPENS a new
      block (the pending buffer, if it holds any byte, is handed on first),
      so every message keeps its own envelope line at its head. */
  function StepAtEnvelope(s: SplitterState, line: Line): SplitterState {
    if IsDelimiter(line) && HasContent(s.pending) then SplitterState(s.emitted + [s.pending], [line])
    else SplitterState(s.emitted, s.pending + [line])
  }

  function RunAtEnvelopes(lines: seq<Line>): SplitterState
    decreases |lines|
  {
    if |lines| == 0 then SplitterState([], [])
    else StepAtEnvelope(RunAtEnvelopes(lines[..|lines| - 1]), lines[|lines| - 1])
  }

  function SplitAtEnvelopes(lines: seq<Line>): seq<Block> {
    var s := RunAtEnvelopes(lines);
    if HasContent(s.pending) then s.emitted + [s.pending] else s.emitted
  }

  // ----- Reference definitions, independent of the splitter -----

  ghost predicate NoDelimiter(b: Block) {
    forall j :: 0 <= j < |b| ==> !IsDelimiter(b[j])
  }

  /** A block closed by a delimiter: it ends with exactly one "From " line. */
  ghost predicate ClosedBlock(b: Block) {
    |b| > 0 && IsDelimiter(b[|b| - 1]) && NoDelimiter(b[..|b| - 1])
  }

  /** A block opened by a delimiter: it starts with exactly one "From " line. */
  ghost predicate OpenedBlock(b: Block) {
    |b| > 0 && IsDelimiter(b[0]) && NoDelimiter(b[1..])
  }

  /** The number of delimiter lines. */
  ghost function CountDelimiters(lines: seq<Line>): nat
    decreases |lines|
  {
    if |lines| == 0 then 0
    else CountDelimiters(lines[..|lines| - 1]) + (if IsDelimiter(lines[|lines| - 1]) then 1 else 0)
  }

  /** The index just past the last delimiter line, or 0 when there is none. */
  ghost function TrailStart(lines: seq<Line>): (k: nat)
    ensures k <= |lines|
    decreases |lines|
  {
    if |lines| == 0 then 0
    else if IsDelimiter(lines[|lines| - 1]) then |lines|
    else TrailStart(lines[..|lines| - 1])
  }

  // ----- Lemmas -----

  lemma {:induction false} BytesAppend(a: seq<Line>, b: seq<Line>)
    ensures Bytes(a + b) == Bytes(a) + Bytes(b)
    decreases |b|
  {
    if |b| == 0 {
      assert a + b == a;
    } else {
      var b' := b[..|b| - 1];
      assert (a + b)[..|a + b| - 1] == a + b';
      BytesAppend(a, b');
    }
  }

  lemma {:induction false} ConcatAppend(blocks: seq<Block>, b: Block)
    ensures Concat(blocks + [b]) == Concat(blocks) + b
  {
    assert (blocks + [b])[..|blocks|] == blocks;
  }

  /** Everything the loop keeps true after reading `lines`: the emitted blocks
      followed by the buffer give back the input, every emitted block is closed
      by exactly one delimiter, the buffer holds no delimiter and is the suffix
      after the last delimiter, and one block was emitted per delimiter. */
  ghost predicate Invariant(lines: seq<Line>, s: SplitterState) {
    && Concat(s.emitted) + s.pending == lines
    && (forall i :: 0 <= i < |s.emitted| ==> ClosedBlock(s.emitted[i]))
    && NoDelimiter(s.pending)
    && |s.emitted| == CountDelimiters(lines)
    && s.pending == lines[TrailStart(lines)..]
  }

  lemma StepOnDelimiter(prev: seq<Line>, s: SplitterState, line: Line)
    requires Invariant(prev, s)
    requires IsDelimiter(line)
    ensures Invariant(prev + [line], Step(s, line))
  {
    var lines := prev + [line];
    assert lines[..|lines| - 1] == prev;
    var pending := s.pending + [line];
    BytesAppend(s.pending, [line]);
    assert [line][..0] == [];
    assert Step(s, line) == SplitterState(s.emitted + [pending], []);
    ConcatAppend(s.emitted, pending);
    assert pending[..|pending| - 1] == s.pending;
    assert ClosedBlock(pending);
  }

  lemma StepOnOtherLine(prev: seq<Line>, s: SplitterState, line: Line)
    requires Invariant(prev, s)
    requires !IsDelimiter(line)
    ensures Invariant(prev + [line], Step(s, line))
  {
    var lines := prev + [line];
    assert lines[..|lines| - 1] == prev;
    assert Step(s, line) == SplitterState(s.emitted, s.pending + [line]);
    assert TrailStart(lines) == TrailStart(prev);
    assert lines[TrailStart(lines)..] == prev[TrailStart(prev)..] + [line];
  }

  lemma {:induction false} RunInvariant(lines: seq<Line>)
    ensures Invariant(lines, Run(lines))
    decreases |lines|
  {
    if |lines| > 0 {
      var prev := lines[..|lines| - 1];
      var line := lines[|lines| - 1];
      assert lines == prev + [line];
      RunInvariant(prev);
      if IsDelimiter(line) {
        StepOnDelimiter(prev, Run(prev), line);
      } else {
        StepOnOtherLine(prev, Run(prev), line);
      }
    }
  }

  /** Concatenating the blocks gives back the archive's bytes, whatever the
      lines are: only a content-free tail can be dropped. */
  lemma SplitKeepsBytes(lines: seq<Line>)
    ensures Bytes(Concat(Split(lines))) == Bytes(lines)
  {
    RunInvariant(lines);
    var s := Run(lines);
    BytesAppend(Concat(s.emitted), s.pending);
    if HasContent(s.pending) {
      ConcatAppend(s.emitted, s.pending);
    }
  }

  /** When no line is empty (as with lines read from a file), concatenating
      the blocks gives back exactly the input lines. */
  lemma SplitKeepsLines(lines: seq<Line>)
    requires forall i :: 0 <= i < |lines| ==> |lines[i]| > 0
    ensures Concat(Split(lines)) == lines
  {
    RunInvariant(lines);
    var s := Run(lines);
    if HasContent(s.pending) {
      ConcatAppend(s.emitted, s.pending);
    }
  }

  lemma ClosedBlockHasContent(b: Block)
    requires ClosedBlock(b)
    ensures HasContent(b)
  {
    assert b == b[..|b| - 1] + [b[|b| - 1]];
    BytesAppend(b[..|b| - 1], [b[|b| - 1]]);
    assert [b[|b| - 1]][..0] == [];
  }

  /** Every block holds at least one byte; every block but the last ends with
      exactly one "From " line; the last either does too or holds no
      delimiter at all. */
  lemma SplitShape(lines: seq<Line>)
    ensures forall i :: 0 <= i < |Split(lines)| ==> HasContent(Split(lines)[i])
    ensures forall i :: 0 <= i < |Split(lines)| - 1 ==> ClosedBlock(Split(lines)[i])
    ensures |Split(lines)| > 0 ==>
              var last := Split(lines)[|Split(lines)| - 1];
              ClosedBlock(last) || NoDelimiter(last)
  {
    RunInvariant(lines);
    var s := Run(lines);
    forall i | 0 <= i < |s.emitted|
      ensures HasContent(s.emitted[i])
    {
      ClosedBlockHasContent(s.emitted[i]);
    }
  }

  /** One block per delimiter line, plus one for a tail after the last
      delimiter that holds at least one byte. */
  lemma SplitCount(lines: seq<Line>)
    ensures |Split(lines)| == CountDelimiters(lines) + (if HasContent(lines[TrailStart(lines)..]) then 1 else 0)
  {
    RunInvariant(lines);
  }

  lemma {:induction false} ConcatFirst(blocks: seq<Block>)
    requires |blocks| > 0
    ensures Concat(blocks) == blocks[0] + Concat(blocks[1..])
    decreases |blocks|
  {
    var prev := blocks[..|blocks| - 1];
    var last := blocks[|blocks| - 1];
    if |blocks| > 1 {
      ConcatFirst(prev);
      assert blocks[1..] == prev[1..] + [last];
      ConcatAppend(prev[1..], last);
    } else {
      assert prev == [];
    }
  }

  lemma {:induction false} LeadingDelimiterCounted(lines: seq<Line>)
    requires |lines| > 0 && IsDelimiter(lines[0])
    ensures CountDelimiters(lines) >= 1
    decreases |lines|
  {
    if |lines| > 1 {
      LeadingDelimiterCounted(lines[..|lines| - 1]);
    }
  }

  /** As written, an archive that starts with an envelope line (as every mbox
      archive does) yields that line alone as the first block: the first
      real message becomes block 2, and every block ends with the envelope
      line of the message after it. */
  lemma LeadingEnvelopeAlone(lines: seq<Line>)
    requires |lines| > 0 && IsDelimiter(lines[0])
    ensures |Split(lines)| > 0 && Split(lines)[0] == [lines[0]]
  {
    RunInvariant(lines);
    LeadingDelimiterCounted(lines);
    var s := Run(lines);
    var e0 := s.emitted[0];
    ConcatFirst(s.emitted);
    assert ClosedBlock(e0);
    assert lines == e0 + Concat(s.emitted[1..]) + s.pending;
    assert e0[0] == lines[0];
    ClosedBlockOpenedIsOneLine(e0);
    assert Split(lines)[0] == e0;
  }

  /** A closed block that also starts with a delimiter is that line alone. */
  lemma ClosedBlockOpenedIsOneLine(b: Block)
    requires ClosedBlock(b) && IsDelimiter(b[0])
    ensures b == [b[0]]
  {
    if |b| > 1 {
      NoDelimiterHead(b[..|b| - 1]);
    }
  }

  lemma NoDelimiterHead(p: Block)
    requires NoDelimiter(p) && |p| > 0
    ensures !IsDelimiter(p[0])
  {
  }

  /** What the corrected loop keeps true for an archive that starts with an
      envelope line: the blocks and the buffer give back the input, each
      starts with exactly one envelope line, and there is one block (counting
      the buffer) per envelope line. */
  ghost predicate EnvelopeInvariant(lines: seq<Line>, s: SplitterState) {
    && Concat(s.emitted) + s.pending == lines
    && (forall i :: 0 <= i < |s.emitted| ==> OpenedBlock(s.emitted[i]))
    && OpenedBlock(s.pending)
    && |s.emitted| + 1 == CountDelimiters(lines)
  }

  lemma OpenedBlockHasContent(b: Block)
    requires OpenedBlock(b)
    ensures HasContent(b)
  {
    assert b == [b[0]] + b[1..];
    BytesAppend([b[0]], b[1..]);
    assert [b[0]][..0] == [];
  }

  lemma StepAtEnvelopeOnDelimiter(prev: seq<Line>, s: SplitterState, line: Line)
    requires EnvelopeInvariant(prev, s)
    requires IsDelimiter(line)
    ensures EnvelopeInvariant(prev + [line], StepAtEnvelope(s, line))
  {
    var lines := prev + [line];
    assert lines[..|lines| - 1] == prev;
    OpenedBlockHasContent(s.pending);
    assert StepAtEnvelope(s, line) == SplitterState(s.emitted + [s.pending], [line]);
    ConcatAppend(s.emitted, s.pending);
    assert [line][1..] == [];
  }

  lemma StepAtEnvelopeOnOtherLine(prev: seq<Line>, s: SplitterState, line: Line)
    requires EnvelopeInvariant(prev, s)
    requires !IsDelimiter(line)
    ensures EnvelopeInvariant(prev + [line], StepAtEnvelope(s, line))
  {
    var lines := prev + [line];
    assert lines[..|lines| - 1] == prev;
    assert StepAtEnvelope(s, line) == SplitterState(s.emitted, s.pending + [line]);
    assert (s.pending + [line])[1..] == s.pending[1..] + [line];
  }

  lemma EnvelopeInvariantStart(line: Line)
    requires IsDelimiter(line)
    ensures EnvelopeInvariant([line], RunAtEnvelopes([line]))
  {
    assert [line][..0] == [];
    assert !HasContent([]);
    assert RunAtEnvelopes([line]) == SplitterState([], [line]);
    assert CountDelimiters([line]) == 1;
    assert [line][1..] == [];
  }

  lemma {:induction false} RunAtEnvelopesInvariant(lines: seq<Line>)
    requires |lines| > 0 && IsDelimiter(lines[0])
    ensures EnvelopeInvariant(lines, RunAtEnvelopes(lines))
    decreases |lines|
  {
    var prev := lines[..|lines| - 1];
    var line := lines[|lines| - 1];
    assert lines == prev + [line];
    if |lines| == 1 {
      EnvelopeInvariantStart(line);
    } else {
      assert prev[0] == lines[0];
      RunAtEnvelopesInvariant(prev);
      if IsDelimiter(line) {
        StepAtEnvelopeOnDelimiter(prev, RunAtEnvelopes(prev), line);
      } else {
        StepAtEnvelopeOnOtherLine(prev, RunAtEnvelopes(prev), line);
      }
    }
  }

  /** The corrected splitter on an mbox archive gives one block per
      envelope line: block k is the message of the k-th envelope. */
  lemma SplitAtEnvelopesCount(lines: seq<Line>)
    requires |lines| > 0 && IsDelimiter(lines[0])
    ensures |SplitAtEnvelopes(lines)| == CountDelimiters(lines)
  {
    RunAtEnvelopesInvariant(lines);
    OpenedBlockHasContent(RunAtEnvelopes(lines).pending);
  }

  /** Each block starts with its own envelope line and holds no other. */
  lemma SplitAtEnvelopesOpened(lines: seq<Line>)
    requires |lines| > 0 && IsDelimiter(lines[0])
    ensures forall i :: 0 <= i < |SplitAtEnvelopes(lines)| ==> OpenedBlock(SplitAtEnvelopes(lines)[i])
  {
    RunAtEnvelopesInvariant(lines);
    OpenedBlockHasContent(RunAtEnvelopes(lines).pending);
  }

  /** Nothing is lost: the blocks concatenated give back the lines. */
  lemma SplitAtEnvelopesKeepsLines(lines: seq<Line>)
    requires |lines| > 0 && IsDelimiter(lines[0])
    ensures Concat(SplitAtEnvelopes(lines)) == lines
  {
    RunAtEnvelopesInvariant(lines);
    var s := RunAtEnvelopes(lines);
    OpenedBlockHasContent(s.pending);
    ConcatAppend(s.emitted, s.pending);
  }

}
