/** Packing the lines of a log message into chunks of bounded size. Each line may get a header. Exactly
    when the chunks hold the whole text, and exactly when they keep to the bound, is proved for every
    message. */
module LogChunks {
  import opened Strings

  const MAX_PAYLOAD: int := 4068

  function Take(s: string, n: nat): (r: string) {
    if |s| <= n then s else s[..n]
  }

  /** The bounded buffer: what it holds, and the position that the unbounded text would have reached. */
  datatype Buffer = Buffer(out: seq<string>, chunk: string, position: nat)

  function Flush(b: Buffer): (r: Buffer) {
    Buffer(b.out + [b.chunk], "", 0)
  }

  /** Print one line, truncating at the bound but advancing by its full length. */
  function Print(b: Buffer, line: string, header: string, max: nat): (r: Buffer) {
    var text := (if b.position > 0 then "\n" else "") + header + line;
    Buffer(b.out, Take(Take(b.chunk, b.position) + text, max), b.position + |text|)
  }

  predicate Crowded(b: Buffer, line: string, header: string, max: nat) {
    b.position != 0 && b.position + |line| + 1 + |header| > max
  }

  /** All lines but the last: a buffer that the line does not fit into is sent first. */
  function Pack(b: Buffer, line: string, header: string, max: nat): (r: Buffer) {
    Print(if Crowded(b, line, header, max) then Flush(b) else b, line, header, max)
  }

  function PackAll(lines: seq<string>, header: string, max: nat, n: nat): (b: Buffer)
    requires n <= |lines|
  {
    if n == 0 then Buffer([], "", 0) else Pack(PackAll(lines, header, max, n - 1), lines[n - 1], header, max)
  }

  lemma PackNext(lines: seq<string>, header: string, max: nat, n: nat, b: Buffer, r: Buffer)
    requires n < |lines| && b == PackAll(lines, header, max, n) && r == Pack(b, lines[n], header, max)
    ensures r == PackAll(lines, header, max, n + 1)
  {}

  /** The last line: into the buffer if that is in use and has room, else as a chunk of its own, truncated
      only if it has a header. */
  function PackLast(b: Buffer, line: string, header: string, max: nat): (out: seq<string>) {
    if b.position != 0 && !Crowded(b, line, header, max) then Flush(Print(b, line, header, max)).out
    else (if b.position != 0 then Flush(b) else b).out + [if header == "" then line else Take(header + line, max)]
  }

  /** The chunks of a message given by its lines. */
  function Chunks(lines: seq<string>, header: string, max: nat): (out: seq<string>)
    requires lines != []
  {
    PackLast(PackAll(lines, header, max, |lines| - 1), lines[|lines| - 1], header, max)
  }

  /** Line `n` of a message runs from `start` to `newline`, and the later lines come after it. */
  ghost predicate AtLine(msg: string, lines: seq<string>, n: nat, start: nat, newline: nat) {
    && start <= newline <= |msg| && n < |lines| && lines[n] == msg[start..newline]
    && (newline < |msg| ==> lines[n + 1..] == Pieces(msg, "\n", newline + 1))
    && (newline == |msg| ==> n == |lines| - 1)
  }

  lemma FindsLine(msg: string, lines: seq<string>, n: nat, start: nat, newline: nat)
    requires start <= |msg| && newline == Find(msg, "\n", start, true) && n <= |lines| && lines[n..] == Pieces(msg, "\n", start)
    ensures AtLine(msg, lines, n, start, newline)
  {
    assert lines[n] == lines[n..][0];
    assert lines[n + 1..] == lines[n..][1..];
    assert msg[start..] == msg[start..|msg|];
  }

  /** Move on to the next line. */
  method NextLine(msg: string, newline: nat, ghost lines: seq<string>, ghost n: nat, ghost start: nat) returns (next: nat)
    requires AtLine(msg, lines, n, start, newline) && newline < |msg|
    ensures AtLine(msg, lines, n + 1, newline + 1, next)
  {
    next := FindFirst(msg, "\n", newline + 1, true);
    FindsLine(msg, lines, n + 1, newline + 1, next);
  }

  method WriteLine(b: Buffer, line: string, header: string, max: nat) returns (r: Buffer)
    ensures r == Pack(b, line, header, max)
  {
    r := b;
    if r.position != 0 && r.position + |line| + 1 + |header| > max {
      r := Flush(r);
    }
    r := Print(r, line, header, max);
  }

  method WriteLast(b: Buffer, line: string, header: string, max: nat) returns (out: seq<string>)
    ensures out == PackLast(b, line, header, max)
  {
    var r := b;
    if r.position != 0 && r.position + |line| + 1 + |header| <= max {
      r := Print(r, line, header, max);
      r := Flush(r);
      return r.out;
    }
    if r.position != 0 {
      r := Flush(r);
    }
    return r.out + [if header == "" then line else Take(header + line, max)];
  }

  /** The loop as it runs: it walks the message from newline to newline and stops before the last line. */
  method WriteLines(msg: string, header: string, max: nat, ghost lines: seq<string>) returns (b: Buffer, last: string)
    requires lines == Pieces(msg, "\n", 0)
    ensures b == PackAll(lines, header, max, |lines| - 1) && last == lines[|lines| - 1]
  {
    ghost var n: nat := 0;
    b := Buffer([], "", 0);
    var start: nat := 0;
    var newline: nat := FindFirst(msg, "\n", 0, true);
    assert lines[0..] == lines;
    FindsLine(msg, lines, 0, 0, newline);
    while newline < |msg|
      invariant AtLine(msg, lines, n, start, newline)
      invariant b == PackAll(lines, header, max, n)
      decreases |msg| - start
    {
      ghost var before := b;
      b := WriteLine(b, msg[start..newline], header, max);
      PackNext(lines, header, max, n, before, b);
      var next := NextLine(msg, newline, lines, n, start);
      start, newline := newline + 1, next;
      n := n + 1;
    }
    last := msg[start..newline];
  }

  method SplitByLogdChunks(msg: string, tagLength: nat, header: string) returns (aborted: bool, out: seq<string>)
    ensures aborted <==> tagLength >= 4033
    ensures !aborted ==> out == Chunks(Pieces(msg, "\n", 0), header, 4033 - tagLength)
  {
    var maxSize := MAX_PAYLOAD - tagLength - 35;
    if maxSize <= 0 {
      return true, [];
    }
    var b, last := WriteLines(msg, header, maxSize, Pieces(msg, "\n", 0));
    out := WriteLast(b, last, header, maxSize);
    aborted := false;
  }

  // ----- what is kept -----

  function Concat(ps: seq<string>): (s: string) {
    if ps == [] then "" else Concat(ps[..|ps| - 1]) + ps[|ps| - 1]
  }

  lemma ConcatSnoc(ps: seq<string>, p: string)
    ensures Concat(ps + [p]) == Concat(ps) + p
  {
    assert (ps + [p])[..|ps|] == ps;
  }

  lemma ConcatNext(ps: seq<string>, n: nat)
    requires n < |ps|
    ensures Concat(ps[..n + 1]) == Concat(ps[..n]) + ps[n]
  {
    assert ps[..n + 1] == ps[..n] + [ps[n]];
    ConcatSnoc(ps[..n], ps[n]);
  }

  function Ended(lines: seq<string>): (r: seq<string>)
    ensures |r| == |lines|
  {
    seq(|lines|, i requires 0 <= i < |lines| => lines[i] + "\n")
  }

  /** The text of a list of lines, each ended by a newline. */
  function Text(lines: seq<string>): (s: string) {
    Concat(Ended(lines))
  }

  lemma TextSnoc(lines: seq<string>, line: string)
    ensures Text(lines + [line]) == Text(lines) + (line + "\n")
  {
    assert Ended(lines + [line]) == Ended(lines) + [line + "\n"];
    ConcatSnoc(Ended(lines), line + "\n");
  }

  /** Everything sent or still in the buffer. */
  function Held(b: Buffer): (s: string) {
    Text(b.out) + if b.position > 0 then b.chunk + "\n" else ""
  }

  /** Where a line starts in a buffer filled up to `position`: at zero if the buffer is sent first. */
  function Begin(position: nat, line: nat, header: nat, max: nat): (p: nat) {
    if position != 0 && position + line + 1 + header > max then 0 else position
  }

  function Advance(start: nat, text: nat): (p: nat) {
    if start > 0 then start + 1 + text else text
  }

  /** The position before line `n`. It depends on the lengths of the lines only. */
  function Position(lines: seq<string>, header: string, max: nat, n: nat): (p: nat)
    requires n <= |lines|
  {
    if n == 0 then 0
    else Advance(Begin(Position(lines, header, max, n - 1), |lines[n - 1]|, |header|, max), |header| + |lines[n - 1]|)
  }

  function Start(lines: seq<string>, header: string, max: nat, n: nat): (p: nat)
    requires n < |lines|
  {
    Begin(Position(lines, header, max, n), |lines[n]|, |header|, max)
  }

  /** What a line that starts at a position leaves in the output: an empty line at the start of a buffer
      leaves nothing, not even its newline. */
  function Kept(start: nat, text: string, max: nat): (s: string) {
    if start == 0 && text == "" then "" else Take(text, max) + "\n"
  }

  /** What each line leaves. */
  function KeptParts(lines: seq<string>, header: string, max: nat): (ps: seq<string>)
    ensures |ps| == |lines|
  {
    seq(|lines|, i requires 0 <= i < |lines| => Kept(Start(lines, header, max, i), header + lines[i], max))
  }

  lemma FlushHolds(b: Buffer)
    requires b.position > 0
    ensures Held(Flush(b)) == Held(b)
  {
    TextSnoc(b.out, b.chunk);
  }

  predicate Bounded(out: seq<string>, max: nat) {
    forall i :: 0 <= i < |out| ==> |out[i]| <= max
  }

  /** The buffer is as full as its position says, up to the bound, and nothing longer has been sent. */
  ghost predicate WellFilled(b: Buffer, max: nat) {
    |b.chunk| == (if b.position <= max then b.position else max) && Bounded(b.out, max)
  }

  lemma PackKeeps(b: Buffer, line: string, header: string, max: nat)
    requires WellFilled(b, max)
    ensures WellFilled(Pack(b, line, header, max), max)
    ensures Pack(b, line, header, max).position == Advance(Begin(b.position, |line|, |header|, max), |header| + |line|)
  {}

  lemma PrintHolds(b: Buffer, line: string, header: string, max: nat)
    requires WellFilled(b, max) && !Crowded(b, line, header, max)
    ensures Held(Print(b, line, header, max)) == Held(b) + Kept(b.position, header + line, max)
  {
    if b.position == 0 {
      assert Take(b.chunk, 0) + ("" + header + line) == header + line;
    } else {
      var text := "\n" + header + line;
      assert Print(b, line, header, max).chunk == b.chunk + text;
      assert b.chunk + text + "\n" == b.chunk + "\n" + (header + line + "\n");
    }
  }

  lemma PackHolds(b: Buffer, line: string, header: string, max: nat)
    requires WellFilled(b, max)
    ensures Held(Pack(b, line, header, max)) == Held(b) + Kept(Begin(b.position, |line|, |header|, max), header + line, max)
  {
    if Crowded(b, line, header, max) {
      FlushHolds(b);
      PrintHolds(Flush(b), line, header, max);
    } else {
      PrintHolds(b, line, header, max);
    }
  }

  /** The buffer after `n` lines: how full it is, and that it holds what those lines leave. */
  lemma {:induction false} PackedState(lines: seq<string>, header: string, max: nat, n: nat, b: Buffer, ps: seq<string>)
    requires n <= |lines| && b == PackAll(lines, header, max, n) && ps == KeptParts(lines, header, max)
    ensures WellFilled(b, max) && b.position == Position(lines, header, max, n) && Held(b) == Concat(ps[..n])
    decreases n
  {
    if n == 0 {
      assert ps[..0] == [] && Ended([]) == [];
    } else {
      var before := PackAll(lines, header, max, n - 1);
      PackedState(lines, header, max, n - 1, before, ps);
      PackNext(lines, header, max, n - 1, before, Pack(before, lines[n - 1], header, max));
      PackedMore(lines, header, max, n - 1, before, ps, Concat(ps[..n - 1]));
      ConcatNext(ps, n - 1);
    }
  }

  lemma PackedMore(lines: seq<string>, header: string, max: nat, n: nat, b: Buffer, ps: seq<string>, held: string)
    requires n < |lines| && ps == KeptParts(lines, header, max)
    requires WellFilled(b, max) && b.position == Position(lines, header, max, n) && Held(b) == held
    ensures var r := Pack(b, lines[n], header, max);
            WellFilled(r, max) && r.position == Position(lines, header, max, n + 1) && Held(r) == held + ps[n]
  {
    PackKeeps(b, lines[n], header, max);
    PackHolds(b, lines[n], header, max);
  }

  lemma LastHolds(b: Buffer, line: string, header: string, max: nat)
    requires WellFilled(b, max)
    ensures Text(PackLast(b, line, header, max)) == Held(b) + ((if header == "" then line else Take(header + line, max)) + "\n")
  {
    if b.position != 0 && !Crowded(b, line, header, max) {
      PrintHolds(b, line, header, max);
      FlushHolds(Print(b, line, header, max));
      assert header == "" ==> header + line == line;
    } else {
      if b.position != 0 { FlushHolds(b); }
      TextSnoc((if b.position != 0 then Flush(b) else b).out, if header == "" then line else Take(header + line, max));
    }
  }

  // ----- exactly when nothing is lost -----

  /** The lines as they should appear. */
  function Headed(lines: seq<string>, header: string): (r: seq<string>)
    ensures |r| == |lines|
  {
    seq(|lines|, i requires 0 <= i < |lines| => header + lines[i])
  }

  /** Line `n` fits behind its header, and is not an empty one at the start of a buffer. */
  predicate KeptWhole(lines: seq<string>, header: string, max: nat, n: nat)
    requires n < |lines|
  {
    |header| + |lines[n]| <= max && !(Start(lines, header, max, n) == 0 && header == "" && lines[n] == "")
  }

  predicate Conserving(lines: seq<string>, header: string, max: nat)
    requires lines != []
  {
    && (forall n :: 0 <= n < |lines| - 1 ==> KeptWhole(lines, header, max, n))
    && (header == "" || |header| + |lines[|lines| - 1]| <= max)
  }

  /** Either nothing is lost, or the kept text is shorter. */
  ghost predicate Tracks(kept: string, full: string, whole: bool) {
    if whole then kept == full else |kept| < |full|
  }

  ghost predicate TracksAt(kept: seq<string>, full: seq<string>, whole: seq<bool>, i: nat)
    requires i < |kept| == |full| == |whole|
  {
    Tracks(kept[i], full[i], whole[i])
  }

  predicate All(whole: seq<bool>) {
    forall i :: 0 <= i < |whole| ==> whole[i]
  }

  lemma AllSnoc(whole: seq<bool>, n: nat)
    requires n < |whole|
    ensures All(whole[..n + 1]) <==> All(whole[..n]) && whole[n]
  {
    assert whole[..n + 1] == whole[..n] + [whole[n]];
  }

  /** Losses in the parts are losses in the whole. */
  lemma {:induction false} ConcatTracks(kept: seq<string>, full: seq<string>, whole: seq<bool>, n: nat)
    requires n <= |kept| == |full| == |whole| && forall i :: 0 <= i < |kept| ==> TracksAt(kept, full, whole, i)
    ensures Tracks(Concat(kept[..n]), Concat(full[..n]), All(whole[..n]))
    decreases n
  {
    if n == 0 {
      assert kept[..0] == [] && full[..0] == [] && whole[..0] == [];
    } else {
      ConcatTracks(kept, full, whole, n - 1);
      assert TracksAt(kept, full, whole, n - 1);
      ConcatNext(kept, n - 1);
      ConcatNext(full, n - 1);
      AllSnoc(whole, n - 1);
    }
  }

  lemma LineTracks(start: nat, text: string, max: nat)
    ensures Tracks(Kept(start, text, max), text + "\n", |text| <= max && !(start == 0 && text == ""))
  {}

  function Wholes(lines: seq<string>, header: string, max: nat): (ws: seq<bool>)
    ensures |ws| == |lines|
  {
    seq(|lines|, i requires 0 <= i < |lines| => KeptWhole(lines, header, max, i))
  }

  lemma PartsTrack(lines: seq<string>, header: string, max: nat, ps: seq<string>, fs: seq<string>, ws: seq<bool>)
    requires ps == KeptParts(lines, header, max) && fs == Ended(Headed(lines, header)) && ws == Wholes(lines, header, max)
    ensures forall i :: 0 <= i < |ps| ==> TracksAt(ps, fs, ws, i)
  {
    forall i | 0 <= i < |ps| ensures TracksAt(ps, fs, ws, i) {
      LineTracks(Start(lines, header, max, i), header + lines[i], max);
    }
  }

  lemma LastTracks(line: string, header: string, max: nat)
    ensures Tracks((if header == "" then line else Take(header + line, max)) + "\n", header + line + "\n", header == "" || |header| + |line| <= max)
  {
    assert header == "" ==> header + line == line;
  }

  lemma ChunksHold(lines: seq<string>, header: string, max: nat, n: nat, last: string, ps: seq<string>)
    requires lines != [] && n == |lines| - 1 && last == lines[n] && ps == KeptParts(lines, header, max)
    ensures Text(Chunks(lines, header, max)) == Concat(ps[..n]) + ((if header == "" then last else Take(header + last, max)) + "\n")
  {
    var b := PackAll(lines, header, max, n);
    PackedState(lines, header, max, n, b, ps);
    LastHolds(b, last, header, max);
  }

  lemma HeadedText(fs: seq<string>, n: nat)
    requires n == |fs| - 1
    ensures Concat(fs) == Concat(fs[..n]) + fs[n]
  {
    ConcatNext(fs, n);
    assert fs[..n + 1] == fs;
  }

  lemma LastPartTracks(lines: seq<string>, header: string, max: nat, fs: seq<string>, n: nat, kept: string)
    requires n == |lines| - 1 && fs == Ended(Headed(lines, header))
    requires kept == (if header == "" then lines[n] else Take(header + lines[n], max)) + "\n"
    ensures Tracks(kept, fs[n], header == "" || |header| + |lines[n]| <= max)
  {
    LastTracks(lines[n], header, max);
  }

  /** Text in two parts is kept exactly if both are. */
  lemma BothKept(a: string, b: string, w: bool, k: string, f: string, v: bool, x: string, y: string)
    requires Tracks(a, b, w) && Tracks(k, f, v) && x == a + k && y == b + f
    ensures x == y <==> w && v
  {}

  lemma WholesAll(lines: seq<string>, header: string, max: nat, n: nat, ws: seq<bool>)
    requires n <= |lines| && ws == Wholes(lines, header, max)
    ensures All(ws[..n]) <==> forall k :: 0 <= k < n ==> KeptWhole(lines, header, max, k)
  {
    assert forall k :: 0 <= k < n ==> ws[..n][k] == KeptWhole(lines, header, max, k);
  }

  lemma LinesTrack(lines: seq<string>, header: string, max: nat, n: nat, ps: seq<string>, fs: seq<string>)
    requires n <= |lines| && ps == KeptParts(lines, header, max) && fs == Ended(Headed(lines, header))
    ensures Tracks(Concat(ps[..n]), Concat(fs[..n]), forall k :: 0 <= k < n ==> KeptWhole(lines, header, max, k))
  {
    var ws := Wholes(lines, header, max);
    PartsTrack(lines, header, max, ps, fs, ws);
    ConcatTracks(ps, fs, ws, n);
    WholesAll(lines, header, max, n, ws);
  }

  /** The text of the chunks and that of the message, each as all lines but the last and the last one. */
  lemma TwoParts(lines: seq<string>, header: string, max: nat) returns (a: string, b: string, whole: bool, kept: string, full: string)
    requires lines != []
    ensures Text(Chunks(lines, header, max)) == a + kept && Text(Headed(lines, header)) == b + full
    ensures Tracks(a, b, whole) && Tracks(kept, full, header == "" || |header| + |lines[|lines| - 1]| <= max)
    ensures whole <==> forall k :: 0 <= k < |lines| - 1 ==> KeptWhole(lines, header, max, k)
  {
    var n, ps, fs := |lines| - 1, KeptParts(lines, header, max), Ended(Headed(lines, header));
    var last := lines[n];
    kept, full := (if header == "" then last else Take(header + last, max)) + "\n", fs[n];
    a, b, whole := Concat(ps[..n]), Concat(fs[..n]), forall k :: 0 <= k < n ==> KeptWhole(lines, header, max, k);
    ChunksHold(lines, header, max, n, last, ps);
    HeadedText(fs, n);
    LinesTrack(lines, header, max, n, ps, fs);
    LastPartTracks(lines, header, max, fs, n, kept);
  }

  /** The chunks hold the message with its headers, line for line, if and only if no line is cut and no
      empty line falls at the start of a buffer. */
  lemma ConservedExactly(lines: seq<string>, header: string, max: nat)
    requires lines != []
    ensures Text(Chunks(lines, header, max)) == Text(Headed(lines, header)) <==> Conserving(lines, header, max)
  {
    var a, b, whole, kept, full := TwoParts(lines, header, max);
    BothKept(a, b, whole, kept, full, header == "" || |header| + |lines[|lines| - 1]| <= max,
             Text(Chunks(lines, header, max)), Text(Headed(lines, header)));
  }

  // ----- exactly when the bound holds -----

  lemma LastBounded(b: Buffer, line: string, header: string, max: nat)
    requires WellFilled(b, max)
    ensures Bounded(PackLast(b, line, header, max), max) <==> header != "" || |line| <= max
  {
    var out := PackLast(b, line, header, max);
    var last := out[|out| - 1];
    assert Bounded(out[..|out| - 1], max);
    assert Bounded(out, max) <==> |last| <= max;
  }

  /** No chunk exceeds the bound, if and only if there is a header or the last line keeps to it. */
  lemma BoundedExactly(lines: seq<string>, header: string, max: nat)
    requires lines != []
    ensures Bounded(Chunks(lines, header, max), max) <==> header != "" || |lines[|lines| - 1]| <= max
  {
    var b := PackAll(lines, header, max, |lines| - 1);
    PackedState(lines, header, max, |lines| - 1, b, KeptParts(lines, header, max));
    LastBounded(b, lines[|lines| - 1], header, max);
  }

  /** A message of one line that is a character too long, without a header, goes out as one chunk over the
      bound. */
  lemma OverlongLastLine(max: nat)
    ensures var line := seq(max + 1, _ => 'x');
            Chunks([line], "", max) == [line] && !Bounded(Chunks([line], "", max), max)
  {
    BoundedExactly([seq(max + 1, _ => 'x')], "", max);
  }

  // ----- messages -----

  lemma {:induction false} TextIsJoin(ps: seq<string>)
    requires ps != []
    ensures Text(ps) == Join(ps, "\n") + "\n"
    decreases |ps|
  {
    var front, last := ps[..|ps| - 1], ps[|ps| - 1];
    assert ps == front + [last];
    TextSnoc(front, last);
    if front == [] {
      assert Ended([]) == [];
    } else {
      TextIsJoin(front);
      JoinSnoc(front, last, "\n");
      assert Join(front, "\n") + "\n" + (last + "\n") == Join(front, "\n") + "\n" + last + "\n";
    }
  }

  lemma SameTextSameJoin(a: seq<string>, b: seq<string>)
    requires a != [] && b != [] && Text(a) == Text(b)
    ensures Join(a, "\n") == Join(b, "\n")
  {
    TextIsJoin(a);
    TextIsJoin(b);
    SameFront(Join(a, "\n"), Join(b, "\n"), "\n");
  }

  lemma HeadedWithNothing(lines: seq<string>)
    ensures Headed(lines, "") == lines
  {
    forall i | 0 <= i < |lines| ensures Headed(lines, "")[i] == lines[i] {
      assert "" + lines[i] == lines[i];
    }
  }

  predicate Ordinary(lines: seq<string>, header: string, max: nat) {
    && (forall n :: 0 <= n < |lines| - 1 ==> lines[n] != "")
    && (forall n :: 0 <= n < |lines| ==> |header| + |lines[n]| <= max)
  }

  /** A message whose lines fit, the last one being the only one that may be empty, is conserved and bounded. */
  lemma OrdinaryMessage(msg: string, header: string, max: nat, lines: seq<string>)
    requires lines == Pieces(msg, "\n", 0) && Ordinary(lines, header, max)
    ensures Bounded(Chunks(lines, header, max), max)
    ensures Join(Chunks(lines, header, max), "\n") == Join(Headed(lines, header), "\n")
    ensures header == "" ==> Join(Chunks(lines, header, max), "\n") == msg
  {
    assert Conserving(lines, header, max);
    ConservedExactly(lines, header, max);
    BoundedExactly(lines, header, max);
    SameTextSameJoin(Chunks(lines, header, max), Headed(lines, header));
    JoinOfSplit(msg, '\n', 0);
    assert msg[0..] == msg;
    HeadedWithNothing(lines);
  }

  // ----- which lines share a chunk -----

  /** Chunk `j` is the lines from one cut to the next, and the line behind it did not fit any more. */
  ghost predicate GroupAt(out: seq<string>, hs: seq<string>, max: nat, cuts: seq<nat>, j: nat)
    requires j < |out| && |cuts| == |out| + 1
  {
    && cuts[j] < cuts[j + 1] <= |hs| && out[j] == Join(hs[cuts[j]..cuts[j + 1]], "\n") && |out[j]| <= max
    && (cuts[j + 1] < |hs| ==> |out[j]| + 1 + |hs[cuts[j + 1]]| > max)
  }

  /** The chunks are consecutive groups of lines, from the first up to the last cut, each as large as it could be. */
  ghost predicate Grouped(out: seq<string>, hs: seq<string>, max: nat, cuts: seq<nat>) {
    |cuts| == |out| + 1 && cuts[0] == 0 && forall j :: 0 <= j < |out| ==> GroupAt(out, hs, max, cuts, j)
  }

  lemma GroupMore(out: seq<string>, hs: seq<string>, max: nat, cuts: seq<nat>, chunk: string, next: nat)
    requires Grouped(out, hs, max, cuts) && cuts[|out|] < next <= |hs| && chunk == Join(hs[cuts[|out|]..next], "\n") && |chunk| <= max
    requires next < |hs| ==> |chunk| + 1 + |hs[next]| > max
    ensures Grouped(out + [chunk], hs, max, cuts + [next])
  {
    forall j | 0 <= j < |out| + 1 ensures GroupAt(out + [chunk], hs, max, cuts + [next], j) {
      if j < |out| { assert GroupAt(out, hs, max, cuts, j); }
    }
  }

  /** The buffer holds the lines behind the last cut. */
  ghost predicate Gathers(b: Buffer, hs: seq<string>, max: nat, cuts: seq<nat>, n: nat)
    requires n <= |hs|
  {
    && Grouped(b.out, hs, max, cuts) && cuts[|b.out|] <= n && b.position == |b.chunk| <= max
    && (b.position == 0 <==> cuts[|b.out|] == n) && b.chunk == Join(hs[cuts[|b.out|]..n], "\n")
  }

  lemma LineJoins(hs: seq<string>, c: nat, n: nat)
    requires c <= n < |hs|
    ensures Join(hs[c..n + 1], "\n") == if c == n then hs[n] else Join(hs[c..n], "\n") + "\n" + hs[n]
  {
    assert hs[c..n + 1] == hs[c..n] + [hs[n]];
    if c < n { JoinSnoc(hs[c..n], hs[n], "\n"); }
  }

  lemma PrintsFirst(b: Buffer, line: string, header: string, max: nat, text: string)
    requires b.position == 0 && text == header + line && |text| <= max
    ensures Print(b, line, header, max) == Buffer(b.out, text, |text|)
  {
    assert Take(b.chunk, 0) + ("" + header + line) == text;
  }

  lemma PrintsBehind(b: Buffer, line: string, header: string, max: nat, text: string)
    requires 0 < b.position == |b.chunk| && text == header + line && !Crowded(b, line, header, max)
    ensures Print(b, line, header, max) == Buffer(b.out, b.chunk + "\n" + text, |b.chunk| + 1 + |text|) && |b.chunk| + 1 + |text| <= max
  {
    assert b.chunk + ("\n" + header + line) == b.chunk + "\n" + text;
  }

  /** A line that fits is printed behind the others. */
  lemma PrintGathers(b: Buffer, line: string, header: string, max: nat, hs: seq<string>, cuts: seq<nat>, n: nat, text: string)
    requires n < |hs| && hs[n] == text == header + line && Gathers(b, hs, max, cuts, n) && !Crowded(b, line, header, max) && |text| <= max
    ensures var r := Print(b, line, header, max);
            r.out == b.out && r.position == |r.chunk| <= max && r.chunk == Join(hs[cuts[|b.out|]..n + 1], "\n")
  {
    LineJoins(hs, cuts[|b.out|], n);
    if b.position == 0 {
      PrintsFirst(b, line, header, max, text);
    } else {
      PrintsBehind(b, line, header, max, text);
    }
  }

  lemma FlushGathers(b: Buffer, line: string, header: string, max: nat, hs: seq<string>, cuts: seq<nat>, n: nat)
    requires n < |hs| && hs[n] == header + line && Gathers(b, hs, max, cuts, n) && Crowded(b, line, header, max)
    ensures Gathers(Flush(b), hs, max, cuts + [n], n)
  {
    GroupMore(b.out, hs, max, cuts, b.chunk, n);
    assert hs[n..n] == [];
  }

  /** The buffer a line is printed into. */
  function Ready(b: Buffer, line: string, header: string, max: nat): (r: Buffer) {
    if Crowded(b, line, header, max) then Flush(b) else b
  }

  lemma ReadyGathers(b: Buffer, line: string, header: string, max: nat, hs: seq<string>, cuts: seq<nat>, n: nat) returns (more: seq<nat>)
    requires n < |hs| && hs[n] == header + line && Gathers(b, hs, max, cuts, n)
    ensures Gathers(Ready(b, line, header, max), hs, max, more, n)
  {
    more := cuts;
    if Crowded(b, line, header, max) {
      FlushGathers(b, line, header, max, hs, cuts, n);
      more := cuts + [n];
    }
  }

  lemma LineGathers(b: Buffer, line: string, header: string, max: nat, hs: seq<string>, cuts: seq<nat>, n: nat) returns (more: seq<nat>)
    requires n < |hs| && hs[n] == header + line && |hs[n]| <= max && Gathers(b, hs, max, cuts, n)
    ensures var r := Pack(b, line, header, max);
            && Grouped(r.out, hs, max, more) && more[|r.out|] <= n && r.position == |r.chunk| <= max
            && r.chunk == Join(hs[more[|r.out|]..n + 1], "\n")
  {
    more := ReadyGathers(b, line, header, max, hs, cuts, n);
    PrintGathers(Ready(b, line, header, max), line, header, max, hs, more, n, hs[n]);
  }

  lemma JoinNotEmpty(ps: seq<string>)
    requires ps != [] && (|ps| == 1 ==> ps[0] != "")
    ensures Join(ps, "\n") != ""
  {}

  lemma PackOneMore(b: Buffer, line: string, header: string, max: nat, hs: seq<string>, cuts: seq<nat>, n: nat) returns (more: seq<nat>)
    requires n < |hs| && hs[n] == header + line && |hs[n]| <= max && Gathers(b, hs, max, cuts, n)
    requires forall k :: 0 <= k <= n ==> hs[k] != ""
    ensures Gathers(Pack(b, line, header, max), hs, max, more, n + 1)
  {
    more := LineGathers(b, line, header, max, hs, cuts, n);
    var c := more[|Pack(b, line, header, max).out|];
    assert hs[c..n + 1][0] == hs[c];
    JoinNotEmpty(hs[c..n + 1]);
  }

  lemma GathersNothing(hs: seq<string>, max: nat)
    ensures Gathers(Buffer([], "", 0), hs, max, [0], 0)
  {
    assert hs[0..0] == [];
  }

  lemma HeadedFits(lines: seq<string>, header: string, max: nat, n: nat, hs: seq<string>)
    requires Ordinary(lines, header, max) && n + 1 < |lines| && hs == Headed(lines, header)
    ensures hs[n] == header + lines[n] && |hs[n]| <= max && forall k :: 0 <= k <= n ==> hs[k] != ""
  {
    forall k | 0 <= k <= n ensures hs[k] != "" {
      assert hs[k] == header + lines[k];
    }
  }

  lemma {:induction false} PackGathers(lines: seq<string>, header: string, max: nat, n: nat, hs: seq<string>) returns (cuts: seq<nat>)
    requires lines != [] && Ordinary(lines, header, max) && n < |lines| && hs == Headed(lines, header)
    ensures Gathers(PackAll(lines, header, max, n), hs, max, cuts, n)
    decreases n
  {
    if n == 0 {
      cuts := [0];
      GathersNothing(hs, max);
    } else {
      var before := PackGathers(lines, header, max, n - 1, hs);
      HeadedFits(lines, header, max, n - 1, hs);
      cuts := PackOneMore(PackAll(lines, header, max, n - 1), lines[n - 1], header, max, hs, before, n - 1);
    }
  }

  lemma LastIsPrinted(b: Buffer, line: string, header: string, max: nat)
    requires |header| + |line| <= max
    ensures var r := Print(Ready(b, line, header, max), line, header, max); PackLast(b, line, header, max) == r.out + [r.chunk]
  {
    if b.position == 0 || Crowded(b, line, header, max) {
      PrintsFirst(Ready(b, line, header, max), line, header, max, header + line);
      assert header == "" ==> header + line == line;
    }
  }

  lemma LastGroup(b: Buffer, line: string, header: string, max: nat, hs: seq<string>, before: seq<nat>, n: nat) returns (cuts: seq<nat>)
    requires n + 1 == |hs| && hs[n] == header + line && |hs[n]| <= max && Gathers(b, hs, max, before, n)
    ensures Grouped(PackLast(b, line, header, max), hs, max, cuts) && cuts[|cuts| - 1] == |hs|
  {
    var most := LineGathers(b, line, header, max, hs, before, n);
    LastIsPrinted(b, line, header, max);
    var r := Pack(b, line, header, max);
    GroupMore(r.out, hs, max, most, r.chunk, n + 1);
    cuts := most + [n + 1];
  }

  /** A message whose lines fit goes out as consecutive groups of lines, in order and without a gap, and no
      group could have taken the line that follows it. */
  lemma ChunksAreGroups(lines: seq<string>, header: string, max: nat, hs: seq<string>) returns (cuts: seq<nat>)
    requires lines != [] && Ordinary(lines, header, max) && hs == Headed(lines, header)
    ensures Grouped(Chunks(lines, header, max), hs, max, cuts) && cuts[|cuts| - 1] == |lines|
  {
    var n := |lines| - 1;
    var before := PackGathers(lines, header, max, n, hs);
    cuts := LastGroup(PackAll(lines, header, max, n), lines[n], header, max, hs, before, n);
  }

  lemma SameFront(a: string, b: string, c: string)
    requires a + c == b + c
    ensures a == b
  {
    assert (a + c)[..|a|] == a && (b + c)[..|b|] == b;
  }

  /** A message that starts with an empty line loses it. */
  lemma EmptyFirstLineIsLost(max: nat)
    requires max > 0
    ensures Chunks(["", "x"], "", max) == ["x"]
  {
    assert PackAll(["", "x"], "", max, 0) == Buffer([], "", 0);
    assert PackAll(["", "x"], "", max, 1) == Buffer([], "", 0);
  }
}
