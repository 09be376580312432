/** The ledger file as text (shadow_ledger.py): appends write one line and its newline, loading splits
    the text at newlines, and a crash may cut an append short. */
module LedgerText {
  import opened Prelude
  import opened ShadowLedger

  /** How one entry is written on a line, and read back. */
  datatype Codec = Codec(render: Entry -> string, parse: string -> Option<Entry>)

  /** What JSON objects on one line do: they read back, contain no newline, do not parse when cut
      short, and do not parse when another one follows. */
  ghost predicate Faithful(c: Codec) {
    && (forall e :: c.render(e) != "" && '\n' !in c.render(e) && c.parse(c.render(e)) == Some(e))
    && (forall e, k :: 0 <= k < |c.render(e)| ==> c.parse(c.render(e)[..k]).None?)
    && (forall line, e :: c.parse(line).Some? ==> c.parse(line + c.render(e)).None?)
  }

  function NewlineAt(text: string): (k: nat)
    ensures k <= |text| && '\n' !in text[..k]
    ensures k < |text| ==> text[k] == '\n'
  {
    if text == "" || text[0] == '\n' then 0
    else
      var k := 1 + NewlineAt(text[1..]);
      assert text[..k] == [text[0]] + text[1..][..k - 1];
      k
  }

  /** The lines of a text; a last line counts with or without its newline. */
  function Split(text: string): seq<string> {
    if text == "" then []
    else
      var k := NewlineAt(text);
      if k == |text| then [text] else [text[..k]] + Split(text[k + 1..])
  }

  function LineOf(c: Codec): string -> seq<Line> {
    (text: string) => match c.parse(text) case None => [Corrupt] case Some(e) => [Parsed(e)]
  }

  function LinesOf(c: Codec, text: string): seq<Line> {
    FlatMap(LineOf(c), Split(text))
  }

  /** The text is empty or ends in a newline. */
  predicate Terminated(text: string) {
    text == "" || text[|text| - 1] == '\n'
  }

  function AppendText(c: Codec, text: string, e: Entry): string {
    text + (c.render(e) + "\n")
  }

  /** One consume call on the file: the ledger step on its lines, and at most one append. */
  ghost function ConsumeText(hash: Content -> string, c: Codec, text: string, r: Request, now: int): (Result<Entry>, string) {
    var (outcome, after) := ConsumeStep(hash, LinesOf(c, text), r, now);
    (outcome, if outcome.Success? && after != LinesOf(c, text) then AppendText(c, text, outcome.value) else text)
  }

  // ----- splitting -----

  /** The first line of a text ends at its first newline, wherever that is found. */
  lemma SplitAt(text: string, k: nat)
    requires text != "" && k <= |text| && '\n' !in text[..k]
    requires k < |text| ==> text[k] == '\n'
    ensures Split(text) == if k == |text| then [text] else [text[..k]] + Split(text[k + 1..])
  {
    hide NewlineAt;
    NewlineFound(text, k);
  }

  lemma NewlineFound(text: string, k: nat)
    requires k <= |text| && '\n' !in text[..k]
    requires k < |text| ==> text[k] == '\n'
    ensures NewlineAt(text) == k
  {}

  lemma TailTerminated(text: string, k: nat)
    requires k < |text| && text[k] == '\n'
    ensures Terminated(text) <==> text[k + 1..] == "" || Terminated(text[k + 1..])
    ensures Terminated(text) ==> Terminated(text[k + 1..])
  {
    var rest := text[k + 1..];
    assert rest != "" ==> rest[|rest| - 1] == text[|text| - 1];
  }

  lemma NoNewlineEnd(text: string)
    requires Terminated(text) && text != ""
    ensures NewlineAt(text) < |text|
  {}

  /** After a terminated text, what follows has its own lines. */
  lemma {:induction false} SplitTerminated(text: string, tail: string)
    requires Terminated(text)
    ensures Split(text + tail) == Split(text) + Split(tail)
    decreases |text|
  {
    hide Split, Terminated, NewlineAt;
    if text == "" {
      assert text + tail == tail;
      NoLines();
    } else {
      var k := NewlineAt(text);
      NoNewlineEnd(text);
      FirstLine(text, tail, k);
      FirstLine(text, "", k);
      assert text + "" == text && text[k + 1..] + "" == text[k + 1..];
      TailTerminated(text, k);
      SplitTerminated(text[k + 1..], tail);
    }
  }

  lemma FirstLine(text: string, tail: string, k: nat)
    requires k < |text| && '\n' !in text[..k] && text[k] == '\n'
    ensures Split(text + tail) == [text[..k]] + Split(text[k + 1..] + tail)
  {
    hide Split;
    var all := text + tail;
    assert all[..k] == text[..k] && all[k + 1..] == text[k + 1..] + tail;
    SplitAt(all, k);
  }

  /** After an unterminated text, what follows continues its last line. */
  lemma {:induction false} SplitContinued(text: string, word: string)
    requires !Terminated(text) && '\n' !in word
    ensures Split(text) != []
    ensures
      var n := |Split(text)| - 1;
      Split(text + (word + "\n")) == Split(text)[..n] + [Split(text)[n] + word]
    decreases |text|
  {
    var k := NewlineAt(text);
    hide Split, NewlineAt;
    SplitAt(text, k);
    if k == |text| {
      ContinuedLine(text, word);
    } else {
      var rest := text[k + 1..];
      FirstLine(text, word + "\n", k);
      TailTerminated(text, k);
      hide Terminated;
      SplitContinued(rest, word);
    }
  }

  lemma ContinuedLine(text: string, word: string)
    requires text != "" && '\n' !in text && '\n' !in word
    ensures Split(text) == [text]
    ensures Split(text + (word + "\n")) == [text + word]
  {
    hide Split;
    var all, m := text + (word + "\n"), |text + word|;
    assert text[..|text|] == text;
    assert all[..m] == text + word && all[m + 1..] == "";
    SplitAt(text, |text|);
    SplitAt(all, m);
    NoLines();
  }

  lemma NoLines()
    ensures Split("") == []
  {}

  lemma OneLine(word: string)
    requires word != "" && '\n' !in word
    ensures Split(word + "\n") == [word] && Split(word) == [word]
  {
    ContinuedLine(word, "");
    assert word + ("" + "\n") == word + "\n" && word + "" == word;
  }

  lemma LinesOfOne(c: Codec, word: string)
    requires word != "" && '\n' !in word
    ensures LinesOf(c, word) == LineOf(c)(word) == LinesOf(c, word + "\n")
  {
    OneLine(word);
    assert FlatMap(LineOf(c), [word]) == LineOf(c)(word) + FlatMap(LineOf(c), [][..]);
  }

  // ----- appending -----

  /** Appending to a terminated text adds one line. */
  lemma AppendAddsALine(c: Codec, text: string, e: Entry)
    requires Faithful(c) && Terminated(text)
    ensures LinesOf(c, AppendText(c, text, e)) == LinesOf(c, text) + [Parsed(e)]
    ensures Terminated(AppendText(c, text, e))
  {
    hide Split;
    var word := c.render(e);
    SplitTerminated(text, word + "\n");
    LinesOfOne(c, word);
    FlatMapConcat(LineOf(c), Split(text), Split(word + "\n"));
  }

  /** Appending to an unterminated text whose lines all parse spoils the last of them. */
  lemma AppendSpoilsALine(c: Codec, text: string, e: Entry)
    requires Faithful(c) && !Terminated(text) && AllParsed(LinesOf(c, text))
    ensures
      var lines := LinesOf(c, AppendText(c, text, e));
      lines != [] && lines[|lines| - 1] == Corrupt
  {
    hide Split;
    var word := c.render(e);
    SplitContinued(text, word);
    var parts := Split(text);
    var n := |parts| - 1;
    LineCount(c, parts);
    assert LinesOf(c, text)[n].Parsed? && LineOf(c)(parts[n]) == [LinesOf(c, text)[n]];
    assert c.parse(parts[n]).Some?;
    FlatMapConcat(LineOf(c), parts[..n], [parts[n] + word]);
    assert FlatMap(LineOf(c), [parts[n] + word]) == [Corrupt] + FlatMap(LineOf(c), [parts[n] + word][1..]);
    assert [parts[n] + word][1..] == [];
  }

  lemma {:induction false} LineCount(c: Codec, parts: seq<string>)
    ensures |FlatMap(LineOf(c), parts)| == |parts|
    ensures forall i :: 0 <= i < |parts| ==> LineOf(c)(parts[i]) == [FlatMap(LineOf(c), parts)[i]]
  {
    if parts != [] {
      LineCount(c, parts[1..]);
    }
  }

  lemma CorruptDoesNotHold(hash: Content -> string, lines: seq<Line>)
    requires lines != [] && lines[|lines| - 1] == Corrupt
    ensures !ChainHolds(hash, lines)
  {
    assert !lines[|lines| - 1].Parsed?;
  }

  lemma StepAppends(hash: Content -> string, lines: seq<Line>, r: Request, now: int)
    requires ConsumeStep(hash, lines, r, now).1 != lines
    ensures ConsumeStep(hash, lines, r, now).0.Success? && ChainHolds(hash, lines) && AllParsed(lines)
    ensures lines != [] ==> lines[|lines| - 1].Parsed?
    ensures ConsumeStep(hash, lines, r, now).0.value == NewEntry(hash, lines, r, now)
    ensures ConsumeStep(hash, lines, r, now).1 == lines + [Parsed(NewEntry(hash, lines, r, now))]
  {}

  /** The exact condition: a call that appends reports success in any case, and the ledger still
      loads after it if and only if the file was empty or ended in a newline. */
  lemma AppendKeepsTheLedgerExactlyWhen(hash: Content -> string, c: Codec, text: string, r: Request, now: int)
    requires Faithful(c) && ConsumeText(hash, c, text, r, now).1 != text
    ensures
      var (outcome, after) := ConsumeText(hash, c, text, r, now);
      && outcome.Success?
      && (ChainHolds(hash, LinesOf(c, after)) <==> Terminated(text))
      && (Terminated(text) ==> Terminated(after) && LinesOf(c, after) == ConsumeStep(hash, LinesOf(c, text), r, now).1)
  {
    hide ConsumeStep, LinesOf, ChainHolds, Faithful, NewEntry, AppendText;
    var lines := LinesOf(c, text);
    StepAppends(hash, lines, r, now);
    var e := NewEntry(hash, lines, r, now);
    if Terminated(text) {
      AppendAddsALine(c, text, e);
      AppendKeepsChain(hash, lines, r, now);
    } else {
      AppendSpoilsALine(c, text, e);
      CorruptDoesNotHold(hash, LinesOf(c, AppendText(c, text, e)));
    }
  }

  // ----- whole runs -----

  ghost function RunText(hash: Content -> string, c: Codec, text: string, calls: seq<(Request, int)>): string
    decreases |calls|
  {
    if calls == [] then text
    else RunText(hash, c, ConsumeText(hash, c, text, calls[0].0, calls[0].1).1, calls[1..])
  }

  /** Runs of whole appends from a terminated file are the runs on lines. */
  lemma {:induction false} TextRunIsLineRun(hash: Content -> string, c: Codec, text: string, calls: seq<(Request, int)>)
    requires Faithful(c) && Terminated(text)
    ensures Terminated(RunText(hash, c, text, calls))
    ensures LinesOf(c, RunText(hash, c, text, calls)) == RunCalls(hash, LinesOf(c, text), calls)
    decreases |calls|
  {
    hide ConsumeStep, LinesOf, Faithful, Terminated, ChainHolds, AppendText;
    if calls != [] {
      var (r, now) := calls[0];
      var after := ConsumeText(hash, c, text, r, now).1;
      if after != text {
        AppendKeepsTheLedgerExactlyWhen(hash, c, text, r, now);
      } else {
        UnchangedText(hash, c, text, r, now);
      }
      TextRunIsLineRun(hash, c, after, calls[1..]);
    }
  }

  lemma AppendGrows(c: Codec, text: string, e: Entry)
    ensures |AppendText(c, text, e)| > |text|
  {}

  lemma UnchangedText(hash: Content -> string, c: Codec, text: string, r: Request, now: int)
    requires ConsumeText(hash, c, text, r, now).1 == text
    ensures ConsumeStep(hash, LinesOf(c, text), r, now).1 == LinesOf(c, text)
  {
    hide ConsumeStep, LinesOf;
    var lines := LinesOf(c, text);
    if ConsumeStep(hash, lines, r, now).1 != lines {
      StepAppends(hash, lines, r, now);
      AppendGrows(c, text, ConsumeStep(hash, lines, r, now).0.value);
    }
  }

  /** The file after an append that a crash cut after `k` characters. */
  function TornAppend(c: Codec, text: string, e: Entry, k: nat): string
    requires k <= |c.render(e)| + 1
  {
    text + (c.render(e) + "\n")[..k]
  }

  /** What a cut append leaves: a file that loads if and only if nothing or the whole entry arrived,
      and that takes a further entry if and only if nothing or the whole line with its newline did.
      So a file that lacks only the newline still loads, and the next append breaks it. */
  lemma TornAppendExactlyWhen(hash: Content -> string, c: Codec, text: string, r: Request, now: int, k: nat)
    requires Faithful(c) && Terminated(text) && ConsumeText(hash, c, text, r, now).1 != text
    requires k <= |c.render(ConsumeText(hash, c, text, r, now).0.value)| + 1
    ensures
      var e := ConsumeText(hash, c, text, r, now).0.value;
      var torn := TornAppend(c, text, e, k);
      && (ChainHolds(hash, LinesOf(c, torn)) <==> k == 0 || k >= |c.render(e)|)
      && (Terminated(torn) <==> k == 0 || k == |c.render(e)| + 1)
  {
    hide ConsumeStep, LinesOf, ChainHolds, NewEntry, Split, NewlineAt;
    var lines := LinesOf(c, text);
    StepAppends(hash, lines, r, now);
    var e := NewEntry(hash, lines, r, now);
    var word := c.render(e);
    AppendKeepsChain(hash, lines, r, now);
    var piece := (word + "\n")[..k];
    if k == 0 {
      assert TornAppend(c, text, e, k) == text;
    } else if k <= |word| {
      assert piece == word[..k];
      assert piece[|piece| - 1] in word;
      TornLine(hash, c, text, piece);
    } else {
      assert piece == word + "\n";
      AppendAddsALine(c, text, e);
    }
    if k == |word| {
      assert piece == word;
    }
  }

  lemma TornLine(hash: Content -> string, c: Codec, text: string, piece: string)
    requires Terminated(text) && piece != "" && '\n' !in piece
    ensures LinesOf(c, text + piece) == LinesOf(c, text) + LineOf(c)(piece)
    ensures c.parse(piece).None? ==> !ChainHolds(hash, LinesOf(c, text + piece))
    ensures !Terminated(text + piece)
  {
    SplitTerminated(text, piece);
    LinesOfOne(c, piece);
    FlatMapConcat(LineOf(c), Split(text), Split(piece));
    assert piece[|piece| - 1] in piece;
    if c.parse(piece).None? {
      CorruptDoesNotHold(hash, LinesOf(c, text + piece));
    }
  }

  // ----- the file -----

  class LedgerTextFile {
    const hash: Content -> string
    const codec: Codec
    var text: string

    constructor (hash: Content -> string, codec: Codec)
      ensures this.hash == hash && this.codec == codec && text == ""
    {
      this.hash, this.codec := hash, codec;
      text := "";
    }

    method Load() returns (r: Result<seq<Entry>>)
      ensures r.Success? <==> ChainHolds(hash, LinesOf(codec, text))
      ensures r.Success? ==> r.value == EntriesOf(LinesOf(codec, text))
    {
      r := LoadShadowLedger(hash, LinesOf(codec, text));
    }

    /** A call that appends reports its entry as consumed even when the file lacks its last newline;
        then, and only then, the ledger no longer loads. */
    method Consume(r: Request, now: int) returns (outcome: Result<Entry>)
      modifies this`text
      ensures (outcome, text) == ConsumeText(hash, codec, old(text), r, now)
      ensures Faithful(codec) && text != old(text) ==>
        && outcome.Success?
        && (ChainHolds(hash, LinesOf(codec, text)) <==> Terminated(old(text)))
    {
      hide ConsumeStep, LinesOf, ChainHolds, Faithful, Terminated;
      ghost var before := text;
      var lines := LinesOf(codec, text);
      var file := new LedgerFile(hash);
      file.lines := lines;
      outcome := file.Consume(r, now);
      if outcome.Success? && file.lines != lines {
        text := AppendText(codec, text, outcome.value);
      }
      if Faithful(codec) && text != before {
        AppendKeepsTheLedgerExactlyWhen(hash, codec, before, r, now);
      }
    }
  }
}
