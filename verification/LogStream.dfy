/**
 The log stream: text that arrives in chunks is split into lines, the lines wait in a bounded buffer, and a read
 hands them out together with the number of lines that were dropped since the previous read.
 */
module LogStream {
  import opened Seqs
  import opened Text
  import opened Wrappers

  const MAX_LINES := 65536

  // ---------------------------------------------------------------- lines

  /** The complete lines of `text`, without their newlines, and the text after the last newline. */
  function SplitLines(text: string): (seq<string>, string)
    decreases |text|
  {
    match IndexOf(text, '\n')
    case None => ([], text)
    case Some(i) =>
      var (lines, rest) := SplitLines(text[i + 1..]);
      ([text[..i]] + lines, rest)
  }

  /** Splitting what is left over together with the next chunk is splitting both at once. */
  lemma {:induction false} SplitAppend(text: string, chunk: string)
    ensures var (lines, rest) := SplitLines(text);
            var (more, rest') := SplitLines(rest + chunk);
            SplitLines(text + chunk) == (lines + more, rest')
    decreases |text|
  {
    hide IndexOf;
    match IndexOf(text, '\n')
    case None => assert [] + SplitLines(text + chunk).0 == SplitLines(text + chunk).0;
    case Some(i) =>
      assert (text + chunk)[..i] == text[..i];
      IndexOfIs(text + chunk, '\n', i);
      assert (text + chunk)[i + 1..] == text[i + 1..] + chunk;
      SplitAppend(text[i + 1..], chunk);
      var (lines, rest) := SplitLines(text[i + 1..]);
      assert ([text[..i]] + lines) + SplitLines(rest + chunk).0 == [text[..i]] + (lines + SplitLines(rest + chunk).0);
  }

  lemma OneMoreLine(text: string, i: nat, before: seq<string>)
    requires IndexOf(text, '\n') == Some(i)
    ensures before + SplitLines(text).0 == before + [text[..i]] + SplitLines(text[i + 1..]).0
    ensures SplitLines(text).1 == SplitLines(text[i + 1..]).1
  {
    hide IndexOf;
    var line, lines := text[..i], SplitLines(text[i + 1..]).0;
    assert SplitLines(text).0 == [line] + lines;
    assert before + ([line] + lines) == before + [line] + lines;
  }

  lemma NoMoreLines(text: string, before: seq<string>)
    requires IndexOf(text, '\n') == None
    ensures before + SplitLines(text).0 == before && SplitLines(text).1 == text
  {
  }

  /** Each line followed by its newline, and then the rest: the text again. */
  function Unsplit(lines: seq<string>, rest: string): string {
    if lines == [] then rest else lines[0] + "\n" + Unsplit(lines[1..], rest)
  }

  /** No character is lost or moved, and no line holds a newline. */
  lemma {:induction false} SplitLosesNothing(text: string)
    ensures var (lines, rest) := SplitLines(text);
            Unsplit(lines, rest) == text && '\n' !in rest && forall l :: l in lines ==> '\n' !in l
    decreases |text|
  {
    match IndexOf(text, '\n')
    case None =>
    case Some(i) =>
      SplitLosesNothing(text[i + 1..]);
      var (lines, rest) := SplitLines(text[i + 1..]);
      assert ([text[..i]] + lines)[1..] == lines;
      assert text == text[..i] + "\n" + text[i + 1..];
  }

  // ---------------------------------------------------------------- the bounded buffer

  function Excess(n: nat): nat { if n <= MAX_LINES then 0 else n - MAX_LINES }

  // ---------------------------------------------------------------- the stream

  datatype ReadResult = Lines(lines: seq<string>, dropped: nat) | Closed

  /**
   `received` is all text that has arrived and `lines` all lines pushed; `since` are those pushed since the last
   read. `returned` and `reported` count the lines that reads have handed out and reported as dropped.
   */
  class LogStream {
    var buf: seq<string>
    var dropped: nat
    var closed: bool
    var pending: string
    ghost var received: string
    ghost var lines: seq<string>
    ghost var since: seq<string>
    ghost var returned: nat
    ghost var reported: nat

    ghost predicate Valid()
      reads this
    {
      && (lines, pending) == SplitLines(received)
      && buf == LastOf(since, MAX_LINES) && dropped == Excess(|since|)
      && |lines| == returned + reported + |since|
      && since == LastOf(lines, |since|)
    }

    constructor ()
      ensures Valid() && !closed && received == "" && since == [] && returned == reported == 0
    {
      buf, dropped, closed, pending := [], 0, false, "";
      received, lines, since, returned, reported := "", [], [], 0, 0;
    }

    /** Conservation: every line pushed was handed out, was reported as dropped, or is still accounted for. */
    lemma NothingUnaccounted()
      requires Valid()
      ensures |lines| == returned + reported + dropped + |buf|
    {
    }

    /** Adds a line; the oldest waiting line makes room when the buffer is full. */
    method Push(line: string)
      requires buf == LastOf(since, MAX_LINES) && dropped == Excess(|since|)
      modifies this`buf, this`dropped, this`since, this`lines
      ensures lines == old(lines) + [line] && since == old(since) + [line]
      ensures buf == LastOf(since, MAX_LINES) && dropped == Excess(|since|)
    {
      if |buf| >= MAX_LINES {
        buf := buf[1..];
        dropped := dropped + 1;
      }
      buf := buf + [line];
      lines := lines + [line];
      since := since + [line];
      assert buf == LastOf(since, MAX_LINES);
    }

    method OnData(chunk: string)
      requires Valid()
      modifies this
      ensures Valid() && received == old(received) + chunk
      ensures lines == SplitLines(received).0 && old(lines) <= lines && since == old(since) + lines[|old(lines)|..]
      ensures closed == old(closed) && returned == old(returned) && reported == old(reported)
    {
      hide SplitLines, IndexOf, LastOf, Excess;
      SplitAppend(received, chunk);
      pending := pending + chunk;
      ghost var more, rest := SplitLines(pending).0, SplitLines(pending).1;
      ghost var before, base := lines, since;
      ghost var done: seq<string> := [];
      var i := IndexOf(pending, '\n');
      while i.Some?
        invariant i == IndexOf(pending, '\n')
        invariant lines == before + done && since == base + done
        invariant buf == LastOf(since, MAX_LINES) && dropped == Excess(|since|)
        invariant done + SplitLines(pending).0 == more && SplitLines(pending).1 == rest
        invariant closed == old(closed) && returned == old(returned) && reported == old(reported)
        invariant received == old(received)
        decreases |pending|
      {
        OneMoreLine(pending, i.value, done);
        var line := pending[..i.value];
        pending := pending[i.value + 1..];
        Push(line);
        done := done + [line];
        i := IndexOf(pending, '\n');
      }
      NoMoreLines(pending, done);
      received := received + chunk;
      LastOfAppend(before, base, done);
    }

    /**
     Of the n lines pushed since the last read, the last 65536 in order, and n - 65536 as dropped if there were
     more. A closed stream can still be read until nothing is waiting.
     */
    method Read() returns (r: ReadResult)
      requires Valid()
      modifies this
      ensures Valid() && received == old(received) && lines == old(lines) && closed == old(closed)
      ensures r.Closed? <==> old(closed) && old(since) == []
      ensures r.Lines? ==> r.lines == LastOf(old(since), 65536)
      ensures r.Lines? ==> r.dropped == if |old(since)| > 65536 then |old(since)| - 65536 else 0
      ensures since == [] && returned + reported == |lines|
      ensures r.Lines? ==> returned == old(returned) + |r.lines| && reported == old(reported) + r.dropped
    {
      if closed && |buf| == 0 { return Closed; }
      r := Lines(buf, dropped);
      returned := returned + |buf|;
      reported := reported + dropped;
      buf := [];
      dropped := 0;
      since := [];
    }

    method Close()
      requires Valid()
      modifies this`closed
      ensures Valid() && closed
    {
      closed := true;
    }
  }

  // ---------------------------------------------------------------- runs over chunks

  /** The lines recovered from a sequence of chunks, one chunk after the other. */
  function Receive(pending: string, chunks: seq<string>): (seq<string>, string)
    decreases |chunks|
  {
    if chunks == [] then ([], pending)
    else
      var (lines, rest) := SplitLines(pending + chunks[0]);
      var (more, rest') := Receive(rest, chunks[1..]);
      (lines + more, rest')
  }

  /** However the text is cut into chunks, the same lines are recovered and the same text is left over. */
  lemma {:induction false} LinesChunkIndependent(pending: string, chunks: seq<string>)
    requires '\n' !in pending
    ensures Receive(pending, chunks) == SplitLines(pending + Concat(chunks))
    decreases |chunks|
  {
    if chunks == [] {
      assert pending + [] == pending;
    } else {
      var (lines, rest) := SplitLines(pending + chunks[0]);
      SplitLosesNothing(pending + chunks[0]);
      LinesChunkIndependent(rest, chunks[1..]);
      SplitAppend(pending + chunks[0], Concat(chunks[1..]));
      assert pending + chunks[0] + Concat(chunks[1..]) == pending + Concat(chunks);
    }
  }
}
