/**
  The event stream reader: text arrives in arbitrary chunks and leaves as lines.
 */
module HorizonListener {
  import opened Text

  const FIRST_DELAY := 1000
  const MAX_DELAY := 30_000

  function Concat(chunks: seq<string>): string {
    if chunks == [] then "" else Concat(chunks[..|chunks| - 1]) + chunks[|chunks| - 1]
  }

  /** The white space and line terminators that the runtime's trim removes. */
  predicate IsSpace(c: char) {
    || c == ' ' || '\t' <= c <= '\r' || c == '\U{00A0}' || c == '\U{1680}' || '\U{2000}' <= c <= '\U{200A}'
    || c == '\U{2028}' || c == '\U{2029}' || c == '\U{202F}' || c == '\U{205F}' || c == '\U{3000}' || c == '\U{FEFF}'
  }

  function Trim(s: string): string {
    if s != [] && IsSpace(s[0]) then Trim(s[1..])
    else if s != [] && IsSpace(s[|s| - 1]) then Trim(s[..|s| - 1])
    else s
  }

  /** The trimmed payloads of the data lines, in order. */
  function Payloads(lines: seq<string>): seq<string> {
    if lines == [] then []
    else
      var line := lines[|lines| - 1];
      Payloads(lines[..|lines| - 1]) + if "data:" <= line then [Trim(line[5..])] else []
  }

  /** The 25 white-space code points and line terminators of ECMAScript. */
  lemma SpacesExactly(c: char)
    ensures IsSpace(c) <==>
            c as int in {0x9, 0xA, 0xB, 0xC, 0xD, 0x20, 0xA0, 0x1680, 0x2000, 0x2001, 0x2002, 0x2003, 0x2004, 0x2005,
                         0x2006, 0x2007, 0x2008, 0x2009, 0x200A, 0x2028, 0x2029, 0x202F, 0x205F, 0x3000, 0xFEFF}
  {
  }

  predicate AllSpaces(s: string) {
    forall i :: 0 <= i < |s| ==> IsSpace(s[i])
  }

  /** Trimming takes spaces off both ends, and all of them. */
  lemma {:induction false} TrimExactly(s: string) returns (front: string, back: string)
    ensures s == front + Trim(s) + back
    ensures AllSpaces(front) && AllSpaces(back)
    ensures Trim(s) != [] ==> !IsSpace(Trim(s)[0]) && !IsSpace(Trim(s)[|Trim(s)| - 1])
  {
    hide IsSpace;
    front, back := [], [];
    if s != [] && IsSpace(s[0]) {
      front, back := TrimExactly(s[1..]);
      front := [s[0]] + front;
      assert s == [s[0]] + s[1..];
    } else if s != [] && IsSpace(s[|s| - 1]) {
      var n := |s| - 1;
      front, back := TrimExactly(s[..n]);
      back := back + [s[n]];
      assert s == s[..n] + [s[n]];
    }
  }

  /** The line carries a payload. */
  predicate IsData(line: string) {
    |line| >= 5 && line[0] == 'd' && line[1] == 'a' && line[2] == 't' && line[3] == 'a' && line[4] == ':'
  }

  /** `picked` are the places of the data lines, in order; their trimmed rests are the payloads. */
  ghost predicate PickedFrom(picked: seq<int>, lines: seq<string>, payloads: seq<string>) {
    && |picked| == |payloads|
    && (forall k :: 0 <= k < |picked| ==>
          0 <= picked[k] < |lines| && IsData(lines[picked[k]]) && payloads[k] == Trim(lines[picked[k]][5..]))
    && (forall k, l :: 0 <= k < l < |picked| ==> picked[k] < picked[l])
    && (forall i :: 0 <= i < |lines| && IsData(lines[i]) ==> i in picked)
  }

  lemma NonePicked() returns (picked: seq<int>)
    ensures PickedFrom(picked, [], [])
  {
    picked := [];
  }

  lemma PickedSnoc(picked: seq<int>, lines: seq<string>, payloads: seq<string>, line: string)
    requires PickedFrom(picked, lines, payloads)
    ensures if IsData(line) then PickedFrom(picked + [|lines|], lines + [line], payloads + [Trim(line[5..])])
            else PickedFrom(picked, lines + [line], payloads)
  {
    hide Trim, IsData;
    var more := lines + [line];
    assert forall i :: 0 <= i < |lines| ==> more[i] == lines[i];
    if IsData(line) {
      var all := picked + [|lines|];
      assert all[|picked|] == |lines|;
      forall i | 0 <= i < |more| && IsData(more[i]) ensures i in all {
        if i < |lines| {
          assert i in picked;
        }
      }
    }
  }

  lemma DataPrefix(line: string)
    ensures "data:" <= line <==> IsData(line)
    ensures IsData(line) ==> |line| >= 5
  {
  }

  lemma PayloadsLast(lines: seq<string>)
    ensures lines == [] ==> Payloads(lines) == []
    ensures lines != [] ==>
              var n := |lines| - 1;
              Payloads(lines) ==
              if IsData(lines[n]) then Payloads(lines[..n]) + [Trim(lines[n][5..])] else Payloads(lines[..n])
  {
    hide Trim, IsData;
    if lines != [] {
      DataPrefix(lines[|lines| - 1]);
    }
  }

  /** Each line that starts with "data:" hands on its trimmed rest, in order, and no other line hands on anything. */
  lemma {:induction false} PayloadsExactly(lines: seq<string>) returns (picked: seq<int>)
    ensures PickedFrom(picked, lines, Payloads(lines))
  {
    hide PickedFrom, Trim, IsData, Payloads;
    PayloadsLast(lines);
    if lines == [] {
      picked := NonePicked();
    } else {
      var n := |lines| - 1;
      var init := PayloadsExactly(lines[..n]);
      PickedSnoc(init, lines[..n], Payloads(lines[..n]), lines[n]);
      picked := if IsData(lines[n]) then init + [n] else init;
      assert lines[..n] + [lines[n]] == lines;
    }
  }

  lemma {:induction false} PayloadsConcat(a: seq<string>, b: seq<string>)
    ensures Payloads(a + b) == Payloads(a) + Payloads(b)
  {
    if b == [] {
      assert a + b == a;
    } else {
      assert (a + b)[..|a + b| - 1] == a + b[..|b| - 1];
      PayloadsConcat(a, b[..|b| - 1]);
    }
  }

  /** The lines completed by a text: its newline-split without the last piece. */
  function Lines(text: string): seq<string> {
    Init(Split(text, '\n'))
  }

  /** The unfinished last line of a text. */
  function Rest(text: string): string {
    Last(Split(text, '\n'))
  }

  /** One more chunk: the lines it completes and the rest, from the rest so far alone. */
  lemma ChunkStep(text: string, chunk: string)
    ensures Lines(text + chunk) == Lines(text) + Lines(Rest(text) + chunk)
    ensures Rest(text + chunk) == Rest(Rest(text) + chunk)
  {
    SplitAppend(text, chunk, '\n');
  }

  class HorizonListenerService {
    var reconnectDelay: nat

    constructor ()
      ensures reconnectDelay == FIRST_DELAY
    {
      reconnectDelay := FIRST_DELAY;
    }

    /**
      Reads a stream to its end.  `queues` says which payloads parse to a tracked
      event; each of them resets the back-off.  What is handed on depends only on
      the whole text, not on how it was cut.
     */
    method ReadStream(chunks: seq<string>, queues: string -> bool)
      returns (lines: seq<string>, handed: seq<string>, buffer: string)
      modifies this
      ensures lines == Lines(Concat(chunks)) && buffer == Rest(Concat(chunks))
      ensures handed == Payloads(lines)
      ensures reconnectDelay ==
              if exists p :: p in handed && queues(p) then FIRST_DELAY else old(reconnectDelay)
    {
      lines, handed, buffer := [], [], "";
      for i := 0 to |chunks|
        invariant lines == Lines(Concat(chunks[..i])) && buffer == Rest(Concat(chunks[..i]))
        invariant handed == Payloads(lines)
        invariant reconnectDelay ==
                  if exists p :: p in handed && queues(p) then FIRST_DELAY else old(reconnectDelay)
      {
        assert chunks[..i + 1][..i] == chunks[..i];
        ChunkStep(Concat(chunks[..i]), chunks[i]);
        buffer := buffer + chunks[i];
        var pieces := Split(buffer, '\n');
        buffer := pieces[|pieces| - 1];
        pieces := pieces[..|pieces| - 1];
        var payloads := HandleLines(pieces, queues);
        PayloadsConcat(lines, pieces);
        lines := lines + pieces;
        handed := handed + payloads;
      }
      assert chunks[..|chunks|] == chunks;
    }

    method HandleLines(lines: seq<string>, queues: string -> bool) returns (handed: seq<string>)
      modifies this
      ensures handed == Payloads(lines)
      ensures reconnectDelay ==
              if exists p :: p in handed && queues(p) then FIRST_DELAY else old(reconnectDelay)
    {
      handed := [];
      for i := 0 to |lines|
        invariant handed == Payloads(lines[..i])
        invariant reconnectDelay ==
                  if exists p :: p in handed && queues(p) then FIRST_DELAY else old(reconnectDelay)
      {
        assert lines[..i + 1][..i] == lines[..i];
        if "data:" <= lines[i] {
          var payload := Trim(lines[i][5..]);
          if queues(payload) { reconnectDelay := FIRST_DELAY; }
          handed := handed + [payload];
          assert handed[|handed| - 1] == payload;
        }
      }
      assert lines[..|lines|] == lines;
    }

    /** Returns the wait before the next attempt and doubles the one after it. */
    method ScheduleReconnect() returns (wait: nat)
      modifies this
      ensures wait == old(reconnectDelay)
      ensures reconnectDelay == Doubled(old(reconnectDelay))
    {
      wait := reconnectDelay;
      reconnectDelay := if reconnectDelay * 2 < MAX_DELAY then reconnectDelay * 2 else MAX_DELAY;
    }
  }

  /** Every line handed on is newline-free, and the lines and the rest joined are the whole stream. */
  lemma NothingLost(text: string)
    ensures Join(Lines(text) + [Rest(text)], '\n') == text
    ensures forall line :: line in Lines(text) ==> '\n' !in line
  {
    SplitExact(text, '\n');
    hide Split, Join;
    assert Lines(text) + [Rest(text)] == Split(text, '\n');
  }

  /** At equal amounts of text read, two ways of cutting the same stream have handed on the same lines. */
  lemma CuttingIrrelevant(a: seq<string>, b: seq<string>, cutA: nat, cutB: nat)
    requires Concat(a) == Concat(b) && cutA <= |a| && cutB <= |b|
    requires |Concat(a[..cutA])| == |Concat(b[..cutB])|
    ensures Lines(Concat(a[..cutA])) == Lines(Concat(b[..cutB]))
    ensures Lines(Concat(a[..cutA])) <= Lines(Concat(a))
  {
    ConcatSplit(a, cutA);
    ConcatSplit(b, cutB);
    assert Concat(a[..cutA]) == Concat(a)[..|Concat(a[..cutA])|];
    assert Concat(b[..cutB]) == Concat(b)[..|Concat(b[..cutB])|];
    ChunkStep(Concat(a[..cutA]), Concat(a[cutA..]));
  }

  lemma {:induction false} ConcatSplit(chunks: seq<string>, n: nat)
    requires n <= |chunks|
    ensures Concat(chunks) == Concat(chunks[..n]) + Concat(chunks[n..])
  {
    if n == |chunks| {
      assert chunks[..n] == chunks;
    } else {
      var m := |chunks| - 1;
      ConcatSplit(chunks[..m], n);
      assert chunks[..m][..n] == chunks[..n];
      assert chunks[n..][..m - n] == chunks[..m][n..];
      assert Concat(chunks) == Concat(chunks[..m]) + chunks[m];
    }
  }

  // ---- Back-off ----

  function Doubled(delay: nat): nat {
    if delay * 2 < MAX_DELAY then delay * 2 else MAX_DELAY
  }

  function Power2(k: nat): nat {
    if k == 0 then 1 else 2 * Power2(k - 1)
  }

  /** The delay after `k` failures in a row. */
  function AfterFailures(k: nat): nat {
    if k == 0 then FIRST_DELAY else Doubled(AfterFailures(k - 1))
  }

  /** The wait grows as 1000 * 2^k until it stays at 30 seconds. */
  lemma {:induction false} BackOff(k: nat)
    ensures AfterFailures(k) == if 1000 * Power2(k) < 30_000 then 1000 * Power2(k) else 30_000
  {
    if k > 0 {
      BackOff(k - 1);
    }
  }
}
