/** Reading the newest events from the end of the JSONL event log, block by block
    (`MemoryFirewall.recent_events` in memory-firewall/app/firewall.py).

    The fast form reads only the tail of the file. It is compared with reading the whole file. */
module EventLog {
  import opened Wrappers

  type Bytes = seq<bv8>

  const LF: bv8 := 10
  const CR: bv8 := 13

  // ----- bytes.splitlines

  /** Length of the line break that `s` starts with, CR LF counting as one; 0 if there is none. */
  function BreakLength(s: Bytes): (k: nat)
    ensures k <= |s|
  {
    if s == [] then 0
    else if s[0] == LF then 1
    else if s[0] == CR then (if |s| > 1 && s[1] == LF then 2 else 1)
    else 0
  }

  /** The lines of `line + s` where `line` has no break: all of them, or only those that end in a
      line break. There is no empty line after a final break. */
  function LinesFrom(line: Bytes, s: Bytes, all: bool): seq<Bytes>
    decreases |s|
  {
    if s == [] then (if all && line != [] then [line] else [])
    else if BreakLength(s) > 0 then [line] + LinesFrom([], s[BreakLength(s)..], all)
    else LinesFrom(line + [s[0]], s[1..], all)
  }

  function SplitLines(s: Bytes): seq<Bytes> {
    LinesFrom([], s, true)
  }

  /** The lines that end in a line break: all but a last one that is still being written. */
  function Terminated(s: Bytes): seq<Bytes> {
    LinesFrom([], s, false)
  }

  function Count(s: Bytes): nat {
    if s == [] then 0 else (if s[0] == LF then 1 else 0) + Count(s[1..])
  }

  /** Line feeds are counted byte by byte. */
  lemma {:induction false} CountIsAdditive(a: Bytes, b: Bytes)
    ensures Count(a + b) == Count(a) + Count(b)
    ensures Count([LF]) == 1 && forall x: bv8 :: x != LF ==> Count([x]) == 0
  {
    if a == [] {
      assert a + b == b;
    } else {
      assert (a + b)[1..] == a[1..] + b;
      CountIsAdditive(a[1..], b);
    }
  }

  /** Behind a line feed lines split independently of what is before it. */
  lemma {:induction false} SplitAtLineFeed(line: Bytes, a: Bytes, b: Bytes, all: bool)
    requires a != [] && a[|a| - 1] == LF
    ensures LinesFrom(line, a + b, all) == LinesFrom(line, a, all) + LinesFrom([], b, all)
    decreases |a|
  {
    var k := BreakLength(a);
    assert BreakLength(a + b) == k;
    if k == 0 {
      assert (a + b)[1..] == a[1..] + b;
      SplitAtLineFeed(line + [a[0]], a[1..], b, all);
    } else {
      assert (a + b)[k..] == a[k..] + b;
      if a[k..] == [] {
        assert a[k..] + b == b;
      } else {
        SplitAtLineFeed([], a[k..], b, all);
      }
    }
  }

  /** Every line feed ends a line. */
  lemma {:induction false} LineFeedsEndLines(line: Bytes, s: Bytes)
    ensures Count(s) <= |LinesFrom(line, s, false)|
    decreases |s|
  {
    var k := BreakLength(s);
    if s != [] {
      if k == 0 {
        LineFeedsEndLines(line + [s[0]], s[1..]);
      } else {
        LineFeedsEndLines([], s[k..]);
        if k == 2 {
          assert s[1..][1..] == s[2..];
        }
      }
    }
  }

  lemma {:induction false} TerminatedIsPrefix(line: Bytes, s: Bytes)
    ensures LinesFrom(line, s, false) <= LinesFrom(line, s, true)
    decreases |s|
  {
    if s != [] {
      if BreakLength(s) == 0 {
        TerminatedIsPrefix(line + [s[0]], s[1..]);
      } else {
        TerminatedIsPrefix([], s[BreakLength(s)..]);
      }
    }
  }

  // ----- Lines come back as they were written

  datatype Ending = Lf | Cr | CrLf

  function EndingBytes(e: Ending): Bytes {
    match e
    case Lf => [LF]
    case Cr => [CR]
    case CrLf => [CR, LF]
  }

  /** Lines one after the other, each with its ending. */
  function Written(lines: seq<(Bytes, Ending)>): Bytes {
    if lines == [] then [] else lines[0].0 + (EndingBytes(lines[0].1) + Written(lines[1..]))
  }

  predicate Plain(line: Bytes) {
    LF !in line && CR !in line
  }

  /** Lines without breaks, and no CR that an empty line's LF would turn into a CR LF. */
  predicate Separable(lines: seq<(Bytes, Ending)>) {
    && (forall i :: 0 <= i < |lines| ==> Plain(lines[i].0))
    && (forall i :: 0 <= i < |lines| - 1 && lines[i].1 == Cr ==> lines[i + 1] != ([], Lf))
  }

  function Texts(lines: seq<(Bytes, Ending)>): (texts: seq<Bytes>)
    ensures |texts| == |lines| && forall i :: 0 <= i < |lines| ==> texts[i] == lines[i].0
  {
    seq(|lines|, i requires 0 <= i < |lines| => lines[i].0)
  }

  lemma {:induction false} RunIsRead(line: Bytes, run: Bytes, rest: Bytes, all: bool)
    requires Plain(run)
    ensures LinesFrom(line, run + rest, all) == LinesFrom(line + run, rest, all)
    decreases |run|
  {
    if run == [] {
      assert run + rest == rest && line + run == line;
    } else {
      assert run[0] in run && forall b :: b in run[1..] ==> b in run;
      assert (run + rest)[1..] == run[1..] + rest;
      assert line + [run[0]] + run[1..] == line + run;
      RunIsRead(line + [run[0]], run[1..], rest, all);
    }
  }

  lemma EndingEndsLine(line: Bytes, e: Ending, rest: Bytes, all: bool)
    requires e == Cr ==> rest == [] || rest[0] != LF
    ensures LinesFrom(line, EndingBytes(e) + rest, all) == [line] + LinesFrom([], rest, all)
  {
    var s := EndingBytes(e) + rest;
    assert BreakLength(s) == |EndingBytes(e)|;
    assert s[|EndingBytes(e)|..] == rest;
  }

  lemma StartsWithLf(lines: seq<(Bytes, Ending)>, partial: Bytes)
    requires Separable(lines) && Plain(partial)
    requires Written(lines) + partial != [] && (Written(lines) + partial)[0] == LF
    ensures lines != [] && lines[0] == ([], Lf)
  {
  }

  lemma FirstWrittenLine(lines: seq<(Bytes, Ending)>, partial: Bytes, all: bool)
    requires lines != [] && Separable(lines) && Plain(partial)
    ensures LinesFrom([], Written(lines) + partial, all)
         == [lines[0].0] + LinesFrom([], Written(lines[1..]) + partial, all)
  {
    var line, e, rest := lines[0].0, lines[0].1, Written(lines[1..]) + partial;
    assert Written(lines) + partial == line + (EndingBytes(e) + rest) && [] + line == line;
    if rest != [] && rest[0] == LF {
      StartsWithLf(lines[1..], partial);
      assert lines[1] == ([], Lf);
    }
    RunIsRead([], line, EndingBytes(e) + rest, all);
    EndingEndsLine(line, e, rest, all);
  }

  /** Every list of lines without breaks, written with any endings and followed by a half-written line, is
      split into exactly these lines; the half-written one counts as a line but not as a terminated one. */
  lemma {:induction false} LinesComeBack(lines: seq<(Bytes, Ending)>, partial: Bytes)
    requires Separable(lines) && Plain(partial)
    ensures SplitLines(Written(lines) + partial) == Texts(lines) + (if partial == [] then [] else [partial])
    ensures Terminated(Written(lines) + partial) == Texts(lines)
  {
    if lines == [] {
      assert Written(lines) + partial == partial == partial + [] && [] + partial == partial;
      RunIsRead([], partial, [], true);
      RunIsRead([], partial, [], false);
    } else {
      FirstWrittenLine(lines, partial, true);
      FirstWrittenLine(lines, partial, false);
      LinesComeBack(lines[1..], partial);
      assert Texts(lines) == [lines[0].0] + Texts(lines[1..]);
    }
  }

  // ----- Events

  /** json.loads of one line: an object, or nothing for an error or any other value. */
  type Decoder<!O> = Bytes -> Option<O>

  /** The events among the lines, last line first. */
  function NewestFirst<O>(decode: Decoder<O>, lines: seq<Bytes>): seq<O> {
    if lines == [] then []
    else
      var rest := NewestFirst(decode, lines[..|lines| - 1]);
      match decode(lines[|lines| - 1])
      case None => rest
      case Some(o) => [o] + rest
  }

  function Take<O>(k: int, s: seq<O>): seq<O> {
    if k <= 0 then [] else if |s| <= k then s else s[..k]
  }

  /** The events of a file, newest first. */
  function EventsOf<O>(decode: Decoder<O>, file: Bytes): seq<O> {
    NewestFirst(decode, SplitLines(file))
  }

  /** The reference: the newest `limit` events of the whole file. */
  function Newest<O>(decode: Decoder<O>, file: Bytes, limit: int): seq<O> {
    Take(limit, EventsOf(decode, file))
  }

  lemma {:induction false} NewestFirstOfConcat<O>(decode: Decoder<O>, a: seq<Bytes>, b: seq<Bytes>)
    ensures NewestFirst(decode, a + b) == NewestFirst(decode, b) + NewestFirst(decode, a)
    decreases |b|
  {
    if b == [] {
      assert a + b == a;
    } else {
      var last := b[|b| - 1];
      assert (a + b)[|a + b| - 1] == last;
      assert (a + b)[..|a + b| - 1] == a + b[..|b| - 1];
      NewestFirstOfConcat(decode, a, b[..|b| - 1]);
    }
  }

  ghost predicate AllDecode<O>(decode: Decoder<O>, lines: seq<Bytes>) {
    forall i :: 0 <= i < |lines| ==> decode(lines[i]).Some?
  }

  lemma {:induction false} AllDecodeCount<O>(decode: Decoder<O>, lines: seq<Bytes>)
    requires AllDecode(decode, lines)
    ensures |NewestFirst(decode, lines)| == |lines|
  {
    if lines != [] {
      AllDecodeCount(decode, lines[..|lines| - 1]);
    }
  }

  // ----- The tail

  /** What a file holds from a position on; nothing from behind its end. */
  function Tail(file: Bytes, pos: nat): Bytes {
    if pos <= |file| then file[pos..] else []
  }

  /** Where the block loop stops: at the start of the file, or as soon as the tail read so far holds
      more than `limit` line feeds. */
  function TailStart(file: Bytes, block: nat, limit: int, pos: nat): (r: nat)
    requires block > 0
    ensures r <= pos
    ensures r == 0 || Count(Tail(file, r)) > limit
    decreases pos
  {
    if pos > 0 && Count(Tail(file, pos)) <= limit then
      TailStart(file, block, limit, pos - if block < pos then block else pos)
    else pos
  }

  /** The position behind the first line feed of a tail, or the end of the file: where its first whole line
      begins. */
  function Cut(file: Bytes, pos: nat): (cut: nat)
    requires pos <= |file|
    ensures pos <= cut <= |file|
    decreases |file| - pos
  {
    if pos == |file| then pos else if file[pos] == LF then pos + 1 else Cut(file, pos + 1)
  }

  lemma {:induction false} CutAtLineFeed(file: Bytes, pos: nat)
    requires pos <= |file| && Count(file[pos..]) > 0
    ensures pos < Cut(file, pos) && file[Cut(file, pos) - 1] == LF
    ensures Count(file[Cut(file, pos)..]) == Count(file[pos..]) - 1
    decreases |file| - pos
  {
    assert file[pos..][1..] == file[pos + 1..];
    if file[pos] != LF {
      CutAtLineFeed(file, pos + 1);
    }
  }

  /** Behind a line feed the events of a file are those of its two parts. */
  lemma EventsAtLineFeed<O>(decode: Decoder<O>, a: Bytes, b: Bytes)
    requires a != [] && a[|a| - 1] == LF
    ensures EventsOf(decode, a + b) == EventsOf(decode, b) + EventsOf(decode, a)
  {
    SplitAtLineFeed([], a, b, true);
    NewestFirstOfConcat(decode, SplitLines(a), SplitLines(b));
  }

  /** Both the file and a tail of it end in the same whole lines behind the cut line. */
  lemma TailLines<O>(decode: Decoder<O>, file: Bytes, pos: nat, cut: nat)
    requires pos < cut <= |file| && file[cut - 1] == LF
    ensures EventsOf(decode, file) == EventsOf(decode, file[cut..]) + EventsOf(decode, file[..cut])
    ensures EventsOf(decode, file[pos..]) == EventsOf(decode, file[cut..]) + EventsOf(decode, file[pos..cut])
  {
    assert file == file[..cut] + file[cut..];
    assert file[pos..] == file[pos..cut] + file[cut..];
    EventsAtLineFeed(decode, file[..cut], file[cut..]);
    EventsAtLineFeed(decode, file[pos..cut], file[cut..]);
  }

  /** When all whole lines decode there are at least as many events as line feeds. */
  lemma LineFeedsAreEvents<O>(decode: Decoder<O>, s: Bytes)
    requires AllDecode(decode, Terminated(s))
    ensures |EventsOf(decode, s)| >= Count(s)
  {
    var done, all := Terminated(s), SplitLines(s);
    LineFeedsEndLines([], s);
    TerminatedIsPrefix([], s);
    AllDecodeCount(decode, done);
    assert all == done + all[|done|..];
    NewestFirstOfConcat(decode, done, all[|done|..]);
  }

  lemma TakeIgnoresRest<O>(k: int, front: seq<O>, x: seq<O>, y: seq<O>)
    requires k <= |front|
    ensures Take(k, front + x) == Take(k, front + y)
  {
  }

  lemma AllDecodeTail<O>(decode: Decoder<O>, file: Bytes, cut: nat)
    requires 0 < cut <= |file| && file[cut - 1] == LF && AllDecode(decode, Terminated(file))
    ensures AllDecode(decode, Terminated(file[cut..]))
  {
    assert file == file[..cut] + file[cut..];
    SplitAtLineFeed([], file[..cut], file[cut..], false);
    var before, after := Terminated(file[..cut]), Terminated(file[cut..]);
    assert forall i :: 0 <= i < |after| ==> after[i] == Terminated(file)[|before| + i];
  }

  /** If every line that ends in a line break decodes, a tail that starts the file or holds more than
      `limit` line feeds gives exactly the newest events of the whole file. The cut first line, and
      any line break style, make no difference; neither does a half-written last line. */
  lemma TailSuffices<O>(decode: Decoder<O>, file: Bytes, pos: nat, limit: int)
    requires pos == 0 || Count(Tail(file, pos)) > limit
    requires AllDecode(decode, Terminated(file))
    ensures Newest(decode, Tail(file, pos), limit) == Newest(decode, file, limit)
  {
    if pos == 0 {
      assert file[pos..] == file;
    } else if limit > 0 {
      var cut := Cut(file, pos);
      CutAtLineFeed(file, pos);
      AllDecodeTail(decode, file, cut);
      LineFeedsAreEvents(decode, file[cut..]);
      TailLines(decode, file, pos, cut);
      TakeIgnoresRest(limit, EventsOf(decode, file[cut..]),
                      EventsOf(decode, file[pos..cut]), EventsOf(decode, file[..cut]));
    }
  }

  /** Whether the whole lines of a tail, where they are too few, are completed by the cut piece in front of
      them just as by the whole file in front of them. */
  predicate CutIsHarmless<O(==)>(decode: Decoder<O>, file: Bytes, pos: nat, limit: int)
    requires pos <= |file|
  {
    var cut := Cut(file, pos);
    var missing := limit - |EventsOf(decode, file[cut..])|;
    Take(missing, EventsOf(decode, file[pos..cut])) == Take(missing, EventsOf(decode, file[..cut]))
  }

  lemma TakeOfFront<O>(k: int, front: seq<O>, x: seq<O>, y: seq<O>)
    requires k >= 0
    ensures Take(k, front + x) == Take(k, front + y) <==> Take(k - |front|, x) == Take(k - |front|, y)
  {
    if k > |front| {
      TakeSplits(k, front, x);
      TakeSplits(k, front, y);
      assert (front + Take(k - |front|, x))[|front|..] == Take(k - |front|, x);
      assert (front + Take(k - |front|, y))[|front|..] == Take(k - |front|, y);
    }
  }

  lemma TakeSplits<O>(k: int, front: seq<O>, x: seq<O>)
    requires k > |front|
    ensures Take(k, front + x) == front + Take(k - |front|, x)
  {
  }

  /** For any lines at all: the tail that the block loop reads gives the newest events of the whole file exactly
      when its cut is harmless, for every block size and every size looked up. */
  lemma TailExactlyWhen<O>(decode: Decoder<O>, file: Bytes, block: nat, limit: int, size: nat)
    requires block > 0
    ensures limit < 0 || TailStart(file, block, limit, size) <= |file|
    ensures var pos := TailStart(file, block, limit, size);
            Newest(decode, Tail(file, pos), limit) == Newest(decode, file, limit)
            <==> limit < 0 || CutIsHarmless(decode, file, pos, limit)
  {
    var pos := TailStart(file, block, limit, size);
    if limit >= 0 {
      var cut := Cut(file, pos);
      if pos == 0 {
        assert file[pos..] == file && file[pos..cut] == file[..cut];
      } else {
        CutAtLineFeed(file, pos);
        TailLines(decode, file, pos, cut);
        TakeOfFront(limit, EventsOf(decode, file[cut..]), EventsOf(decode, file[pos..cut]),
                    EventsOf(decode, file[..cut]));
      }
    }
  }

  lemma FirstLine(x: bv8, rest: Bytes)
    requires x != LF && x != CR
    ensures SplitLines([x, LF] + rest) == [[x]] + SplitLines(rest)
  {
    var s := [x, LF] + rest;
    assert s[1..] == [LF] + rest && s[1..][1..] == rest;
    assert [] + [x] == [x];
    assert LinesFrom([x], s[1..], true) == [[x]] + LinesFrom([], rest, true);
  }

  function DecodeOnes(): Decoder<int> {
    (line: Bytes) => if line == [1] then Some(1) else None
  }

  const HIDDEN: Bytes := [1, LF, 2, LF, 2, LF]

  lemma HiddenTail()
    ensures TailStart(HIDDEN, 1, 1, 6) == 3 && Tail(HIDDEN, 3) == [LF, 2, LF]
  {
    var tail: Bytes := [LF, 2, LF];
    assert HIDDEN[3..] == tail && HIDDEN[4..] == tail[1..] == [2, LF] && HIDDEN[5..] == [LF] && HIDDEN[6..] == [];
    assert [2, LF][1..] == [LF] && [LF][1..] == [];
    assert Count([LF]) == 1;
    assert Count([2, LF]) == 1;
    assert Count(tail) == 2;
    assert TailStart(HIDDEN, 1, 1, 4) == TailStart(HIDDEN, 1, 1, 3) == 3;
    assert TailStart(HIDDEN, 1, 1, 6) == TailStart(HIDDEN, 1, 1, 5) == TailStart(HIDDEN, 1, 1, 4);
  }

  lemma HiddenLines()
    ensures SplitLines([LF, 2, LF]) == [[], [2]]
    ensures SplitLines(HIDDEN) == [[1], [2], [2]]
  {
    assert [LF, 2, LF][1..] == [2, LF] + [];
    FirstLine(2, []);
    assert SplitLines([LF, 2, LF]) == [[]] + SplitLines([2, LF] + []);
    assert HIDDEN == [1, LF] + ([2, LF] + ([2, LF] + []));
    FirstLine(2, [2, LF] + []);
    FirstLine(1, [2, LF] + ([2, LF] + []));
  }

  /** The cut can do harm: one event and two lines that do not decode, read byte by byte with limit 1, give
      nothing, although the file holds an event. */
  lemma UndecodableLinesHideEvents()
    ensures Newest(DecodeOnes(), Tail(HIDDEN, TailStart(HIDDEN, 1, 1, 6)), 1) == []
    ensures Newest(DecodeOnes(), HIDDEN, 1) == [1]
  {
    HiddenTail();
    HiddenLines();
    var tail: seq<Bytes> := [[], [2]];
    assert tail[..1] == [[]] && tail[..1][..0] == [];
    assert NewestFirst(DecodeOnes(), tail) == [];
    var all: seq<Bytes> := [[1], [2], [2]];
    assert all[..2] == [[1], [2]] && all[..2][..1] == [[1]] && all[..2][..1][..0] == [];
    assert NewestFirst(DecodeOnes(), all[..2][..1]) == [1];
    assert NewestFirst(DecodeOnes(), all[..2]) == [1];
  }

  /** seek and read: a read behind the end, or beyond it, gives what is there. */
  function Read(file: Bytes, pos: nat, step: nat): Bytes {
    if pos >= |file| then [] else if pos + step >= |file| then file[pos..] else file[pos..pos + step]
  }

  /** The part of the file that counts: up to the size that was looked up. */
  function Log(file: Bytes, size: nat): Bytes {
    Read(file, 0, size)
  }

  // ----- A log of appended events

  /** The lines that appending the events writes, one JSON text and a line feed each. */
  function Appended<O>(events: seq<O>, encode: O -> Bytes): seq<(Bytes, Ending)> {
    seq(|events|, i requires 0 <= i < |events| => (encode(events[i]), Lf))
  }

  lemma {:induction false} EventsReversed<O>(decode: Decoder<O>, events: seq<O>, lines: seq<Bytes>)
    requires |lines| == |events| && forall i :: 0 <= i < |events| ==> decode(lines[i]) == Some(events[i])
    ensures |NewestFirst(decode, lines)| == |events|
    ensures forall i :: 0 <= i < |events| ==> NewestFirst(decode, lines)[i] == events[|events| - 1 - i]
  {
    if events != [] {
      var n := |events| - 1;
      EventsReversed(decode, events[..n], lines[..n]);
    }
  }

  lemma EventsOfAppended<O>(decode: Decoder<O>, encode: O -> Bytes, events: seq<O>, partial: Bytes)
    requires Plain(partial) && (partial != [] ==> decode(partial) == None)
    requires forall e :: e in events ==> Plain(encode(e)) && decode(encode(e)) == Some(e)
    ensures var file := Written(Appended(events, encode)) + partial;
            && AllDecode(decode, Terminated(file)) && |EventsOf(decode, file)| == |events|
            && forall i :: 0 <= i < |events| ==> EventsOf(decode, file)[i] == events[|events| - 1 - i]
  {
    var lines := Appended(events, encode);
    var half: seq<Bytes> := if partial == [] then [] else [partial];
    forall i | 0 <= i < |events|
      ensures Plain(lines[i].0) && decode(Texts(lines)[i]) == Some(events[i])
    {
      assert events[i] in events;
    }
    LinesComeBack(lines, partial);
    EventsReversed(decode, events, Texts(lines));
    NewestFirstOfConcat(decode, Texts(lines), half);
    assert half != [] ==> half[..0] == [];
    assert NewestFirst(decode, half) == [];
  }

  /** A log made by appending events, each encoded on one line, with perhaps a line half written by now: what is
      read from its end is the last `limit` events, or all of them if there are fewer, the newest first. */
  lemma AppendedEventsComeBack<O>(decode: Decoder<O>, encode: O -> Bytes, events: seq<O>, partial: Bytes,
                                  block: nat, limit: nat)
    requires block > 0 && Plain(partial) && (partial != [] ==> decode(partial) == None)
    requires forall e :: e in events ==> Plain(encode(e)) && decode(encode(e)) == Some(e)
    ensures var file := Written(Appended(events, encode)) + partial;
            var log := Log(file, |file|);
            var read := Newest(decode, Tail(log, TailStart(log, block, limit, |file|)), limit);
            && |read| == (if limit < |events| then limit else |events|)
            && forall i :: 0 <= i < |read| ==> read[i] == events[|events| - 1 - i]
  {
    var file := Written(Appended(events, encode)) + partial;
    EventsOfAppended(decode, encode, events, partial);
    TailSuffices(decode, file, TailStart(file, block, limit, |file|), limit);
    assert Log(file, |file|) == file;
  }

  /** What counts is what the file holds up to that size. */
  lemma LogIsPrefix(file: Bytes, size: nat)
    ensures Log(file, size) == if size <= |file| then file[..size] else file
  {
    assert file[0..] == file;
  }

  /** The loop over the blocks. `file` is the log as it is read, `size` its length when it was looked
      up: lines may be appended, or the log cut short, in between. */
  method ReadTail(file: Bytes, size: nat, block: nat, limit: int) returns (data: Bytes)
    requires block > 0
    ensures data == Tail(Log(file, size), TailStart(Log(file, size), block, limit, size))
  {
    data := [];
    var pos := size;
    ghost var log := Log(file, size);
    ghost var start := TailStart(log, block, limit, size);
    assert data == Tail(log, pos);
    while pos > 0 && Count(data) <= limit
      invariant 0 <= pos <= size && data == Tail(log, pos) && TailStart(log, block, limit, pos) == start
      decreases pos
    {
      TailStartStep(log, block, limit, pos);
      var step := if block < pos then block else pos;
      pos := pos - step;
      ReadExtends(file, size, pos, step);
      data := Read(file, pos, step) + data;
    }
  }

  lemma TailStartStep(file: Bytes, block: nat, limit: int, pos: nat)
    requires block > 0 && pos > 0 && Count(Tail(file, pos)) <= limit
    ensures TailStart(file, block, limit, pos)
            == TailStart(file, block, limit, pos - if block < pos then block else pos)
  {
  }

  lemma ReadExtends(file: Bytes, size: nat, pos: nat, step: nat)
    requires pos + step <= size
    ensures Read(file, pos, step) + Tail(Log(file, size), pos + step) == Tail(Log(file, size), pos)
  {
  }

  /** The loop over the lines, last line first, that skips what does not decode. */
  method Collect<O>(decode: Decoder<O>, lines: seq<Bytes>, limit: int) returns (events: seq<O>)
    ensures events == Take(limit, NewestFirst(decode, lines))
  {
    events := [];
    var i := |lines|;
    assert lines[..i] == lines;
    while i > 0 && |events| < limit
      invariant 0 <= i <= |lines|
      invariant |events| <= limit || events == []
      invariant NewestFirst(decode, lines) == events + NewestFirst(decode, lines[..i])
    {
      i := i - 1;
      assert lines[..i + 1][..i] == lines[..i];
      var obj := decode(lines[i]);
      if obj.Some? {
        events := events + [obj.value];
      }
    }
  }

  /** The newest `limit` events, newest first; no file is no events. They are the newest events of the whole
      file if every terminated line decodes, and in any case exactly when the cut of the tail is harmless. */
  method RecentEvents<O(==)>(decode: Decoder<O>, file: Option<Bytes>, size: nat, block: nat, limit: int)
      returns (events: seq<O>)
    requires block > 0
    ensures file == None ==> events == []
    ensures file.Some? ==>
      var log := Log(file.value, size);
      var pos := TailStart(log, block, limit, size);
      && events == Newest(decode, Tail(log, pos), limit)
      && (AllDecode(decode, Terminated(log)) ==> events == Newest(decode, log, limit))
      && (limit < 0 || pos <= |log|)
      && (events == Newest(decode, log, limit) <==> limit < 0 || CutIsHarmless(decode, log, pos, limit))
  {
    if file == None {
      return [];
    }
    ghost var log := Log(file.value, size);
    var data := ReadTail(file.value, size, block, limit);
    events := Collect(decode, SplitLines(data), limit);
    TailExactlyWhen(decode, log, block, limit, size);
    if AllDecode(decode, Terminated(log)) {
      TailSuffices(decode, log, TailStart(log, block, limit, size), limit);
    }
  }
}
