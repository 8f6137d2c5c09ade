/** Frame extraction of soc/microchip/devcpu/port.go: a frame arrives in a FIFO
    as 32-bit words in which marker values are escaped, with not-ready words
    anywhere in between, and ends with a marker that counts unused bytes. */
module Devcpu {
  import opened Wire

  const EOF_UNUSED_0: nat := 0x0000_0080
  const EOF_UNUSED_1: nat := 0x0100_0080
  const EOF_UNUSED_2: nat := 0x0200_0080
  const EOF_UNUSED_3: nat := 0x0300_0080
  const EOF_TRUNCATED: nat := 0x0400_0080
  const EOF_ABORTED: nat := 0x0500_0080
  const ESCAPE: nat := 0x0600_0080
  const NOT_READY: nat := 0x0700_0080

  // ---------------------------------------------------------------- the word stream

  /** The words that carry information: everything but the not-ready stalls. */
  function Strip(s: seq<nat>): seq<nat> {
    if s == [] then []
    else if s[0] == NOT_READY then Strip(s[1..])
    else [s[0]] + Strip(s[1..])
  }

  lemma {:induction false} StripAppend(s: seq<nat>, t: seq<nat>)
    ensures Strip(s + t) == Strip(s) + Strip(t)
    decreases |s|
  {
    if s == [] {
      assert s + t == t;
    } else {
      assert (s + t)[1..] == s[1..] + t;
      StripAppend(s[1..], t);
    }
  }

  /** What one step of extraction finds. */
  datatype Item = Word(w: nat) | Eof(unused: nat) | Truncated | Aborted | Starved

  /** The next item of a stall-free stream and what remains of it. */
  function Next(s: seq<nat>): (r: (Item, seq<nat>))
    ensures s != [] ==> |r.1| < |s|
    ensures s == [] ==> r.0 == Starved
  {
    if s == [] then (Starved, [])
    else if s[0] == EOF_UNUSED_0 then (Eof(0), s[1..])
    else if s[0] == EOF_UNUSED_1 then (Eof(1), s[1..])
    else if s[0] == EOF_UNUSED_2 then (Eof(2), s[1..])
    else if s[0] == EOF_UNUSED_3 then (Eof(3), s[1..])
    else if s[0] == EOF_TRUNCATED then (Truncated, if |s| == 1 then [] else s[2..])
    else if s[0] == EOF_ABORTED then (Aborted, s[1..])
    else if s[0] == ESCAPE then if |s| == 1 then (Starved, []) else (Word(s[1]), s[2..])
    else (Word(s[0]), s[1..])
  }

  /** The body of a frame: its words and end marker, or the error that stopped it. */
  datatype Parsed = Frame(words: seq<nat>, unused: nat, rest: seq<nat>) | Broken(item: Item, rest: seq<nat>)

  function Body(s: seq<nat>, words: seq<nat>): Parsed
    decreases |s|
  {
    var (item, rest) := Next(s);
    match item
    case Word(w) => Body(rest, words + [w])
    case Eof(unused) => Frame(words, unused, rest)
    case _ => Broken(item, rest)
  }

  /** A whole frame: `header` words are skipped before the body. */
  function Parse(s: seq<nat>, header: nat): Parsed
    decreases header
  {
    if header == 0 then Body(s, [])
    else
      var (item, rest) := Next(s);
      if item.Word? then Parse(rest, header - 1) else Broken(item, rest)
  }

  // ---------------------------------------------------------------- the encoding

  predicate IsMarker(w: nat) {
    w in {EOF_UNUSED_0, EOF_UNUSED_1, EOF_UNUSED_2, EOF_UNUSED_3, EOF_TRUNCATED, EOF_ABORTED, ESCAPE, NOT_READY}
  }

  /** A data word as the switch sends it: markers are escaped. */
  function Code(w: nat): seq<nat> {
    if IsMarker(w) then [ESCAPE, w] else [w]
  }

  function Encode(words: seq<nat>): seq<nat> {
    if words == [] then [] else Code(words[0]) + Encode(words[1..])
  }

  /** The eight markers are 0x80 with a number from 0 to 7 in the top byte: 0 to 3
      for the unused bytes of a frame, then truncated, aborted, escape, not ready. */
  lemma MarkerForm(w: nat)
    ensures IsMarker(w) <==> w % 0x100_0000 == 0x80 && w / 0x100_0000 < 8
    ensures forall u :: 0 <= u < 4 ==> EofMarker(u) / 0x100_0000 == u
    ensures EOF_TRUNCATED / 0x100_0000 == 4 && EOF_ABORTED / 0x100_0000 == 5
    ensures ESCAPE / 0x100_0000 == 6 && NOT_READY / 0x100_0000 == 7
  {
  }

  function EofMarker(unused: nat): nat
    requires unused < 4
  {
    match unused case 0 => EOF_UNUSED_0 case 1 => EOF_UNUSED_1 case 2 => EOF_UNUSED_2 case _ => EOF_UNUSED_3
  }

  /** A frame on the wire. */
  function FrameWords(header: seq<nat>, data: seq<nat>, unused: nat): seq<nat>
    requires unused < 4
  {
    Encode(header) + Encode(data) + [EofMarker(unused)]
  }

  /** The first item of an encoded word followed by anything is that word. */
  lemma NextEncoded(w: nat, t: seq<nat>)
    ensures Next(Code(w) + t) == (Word(w), t)
  {
    var s := Code(w) + t;
    if IsMarker(w) {
      assert s[2..] == t;
    } else {
      assert s[1..] == t;
    }
  }

  lemma {:induction false} BodyEncoded(data: seq<nat>, unused: nat, tail: seq<nat>, words: seq<nat>)
    requires unused < 4
    ensures Body(Encode(data) + [EofMarker(unused)] + tail, words) == Frame(words + data, unused, tail)
    decreases |data|
  {
    if data == [] {
      assert Encode(data) + [EofMarker(unused)] + tail == [EofMarker(unused)] + tail;
      assert ([EofMarker(unused)] + tail)[1..] == tail;
    } else {
      hide Code, Next, EofMarker;
      var rest := Encode(data[1..]) + [EofMarker(unused)] + tail;
      assert Encode(data) + [EofMarker(unused)] + tail == Code(data[0]) + rest;
      NextEncoded(data[0], rest);
      BodyEncoded(data[1..], unused, tail, words + [data[0]]);
      assert words + [data[0]] + data[1..] == words + data;
    }
  }

  lemma {:induction false} ParseEncoded(header: seq<nat>, data: seq<nat>, unused: nat, tail: seq<nat>)
    requires unused < 4
    ensures Parse(FrameWords(header, data, unused) + tail, |header|) == Frame(data, unused, tail)
    decreases |header|
  {
    if header == [] {
      assert FrameWords(header, data, unused) + tail == Encode(data) + [EofMarker(unused)] + tail;
      BodyEncoded(data, unused, tail, []);
    } else {
      var rest := FrameWords(header[1..], data, unused) + tail;
      Regroup(Code(header[0]), Encode(header[1..]), Encode(data), [EofMarker(unused)], tail);
      NextEncoded(header[0], rest);
      hide Code, Encode, FrameWords, Next, Body, EofMarker;
      ParseEncoded(header[1..], data, unused, tail);
    }
  }

  lemma Regroup<T>(a: seq<T>, b: seq<T>, c: seq<T>, d: seq<T>, e: seq<T>)
    ensures a + b + c + d + e == a + (b + c + d + e)
  {
  }

  lemma {:induction false} EncodeAppend(a: seq<nat>, b: seq<nat>)
    ensures Encode(a + b) == Encode(a) + Encode(b)
    decreases |a|
  {
    hide Code;
    if a == [] {
      assert a + b == b;
    } else {
      EncodeAppend(a[1..], b);
      assert (a + b)[1..] == a[1..] + b;
    }
  }

  /** Encoded words as they pass the FIFO, where an escaped not-ready value leaves only its escape. */
  function Passed(words: seq<nat>): seq<nat> {
    if words == [] then []
    else (if words[0] == NOT_READY then [ESCAPE] else Code(words[0])) + Passed(words[1..])
  }

  lemma StripCode(w: nat)
    ensures Strip(Code(w)) == if w == NOT_READY then [ESCAPE] else Code(w)
  {
    assert [w][1..] == [];
    assert Strip([w]) == if w == NOT_READY then [] else [w];
    if IsMarker(w) {
      assert Code(w)[1..] == [w];
    }
  }

  lemma {:induction false} StripEncode(words: seq<nat>)
    ensures Strip(Encode(words)) == Passed(words)
    ensures NOT_READY !in words ==> Passed(words) == Encode(words)
  {
    if words != [] {
      hide Code;
      StripEncode(words[1..]);
      StripAppend(Code(words[0]), Encode(words[1..]));
      StripCode(words[0]);
    }
  }

  /** A parse that skips `h` words finds as many fewer than the parse of the body alone. */
  lemma {:induction false} ParseIsBody(s: seq<nat>, h: nat, acc: seq<nat>)
    requires Parse(s, h).Frame?
    ensures var b := Body(s, acc);
            b.Frame? && |b.words| == |acc| + h + |Parse(s, h).words| && b.rest == Parse(s, h).rest
    decreases h
  {
    if h == 0 {
      BodyAccumulates(s, [], acc);
    } else {
      var (item, rest) := Next(s);
      ParseIsBody(rest, h - 1, acc + [item.w]);
    }
  }

  lemma {:induction false} BodyAccumulates(s: seq<nat>, a: seq<nat>, b: seq<nat>)
    requires Body(s, a).Frame?
    ensures Body(s, b).Frame? && Body(s, b).rest == Body(s, a).rest
    ensures |Body(s, b).words| - |b| == |Body(s, a).words| - |a|
    decreases |s|
  {
    var (item, rest) := Next(s);
    if item.Word? {
      BodyAccumulates(rest, a + [item.w], b + [item.w]);
    }
  }

  lemma {:induction false} BodyShrinks(s: seq<nat>, acc: seq<nat>)
    ensures Body(s, acc).Frame? ==> |Body(s, acc).rest| < |s|
    decreases |s|
  {
    var (item, rest) := Next(s);
    if item.Word? {
      BodyShrinks(rest, acc + [item.w]);
    }
  }

  /** No parse of passed words that stops at their end marker finds more words than were sent,
      and it finds fewer once a not-ready value was among them. */
  lemma {:induction false} PassedCount(x: seq<nat>, eof: nat, t: seq<nat>, acc: seq<nat>)
    requires eof in {EOF_UNUSED_0, EOF_UNUSED_1, EOF_UNUSED_2, EOF_UNUSED_3}
    ensures var b := Body(Passed(x) + [eof] + t, acc);
            b.Frame? && |b.rest| >= |t| ==> |b.words| - |acc| <= |x| && (NOT_READY in x ==> |b.words| - |acc| < |x|)
    decreases |x|, 0
  {
    var s := Passed(x) + [eof] + t;
    if x == [] {
      assert s == [eof] + t;
    } else {
      var rest := Passed(x[1..]) + [eof] + t;
      if x[0] == NOT_READY {
        assert s == [ESCAPE] + rest;
        EscapedCount(x[1..], eof, t, acc);
      } else {
        assert s == Code(x[0]) + rest;
        NextEncoded(x[0], rest);
        PassedCount(x[1..], eof, t, acc + [x[0]]);
      }
    }
  }

  /** The same behind an escape that lost its word. */
  lemma {:induction false} EscapedCount(x: seq<nat>, eof: nat, t: seq<nat>, acc: seq<nat>)
    requires eof in {EOF_UNUSED_0, EOF_UNUSED_1, EOF_UNUSED_2, EOF_UNUSED_3}
    ensures var b := Body([ESCAPE] + (Passed(x) + [eof] + t), acc);
            b.Frame? && |b.rest| >= |t| ==> |b.words| - |acc| <= |x|
    decreases |x|, 1
  {
    hide Next, Body, Code;
    var s := [ESCAPE] + (Passed(x) + [eof] + t);
    if x == [] {
      assert s == [ESCAPE, eof] + t;
      EscapedNext(eof, t, acc);
      BodyShrinks(t, acc + [eof]);
    } else {
      var rest := Passed(x[1..]) + [eof] + t;
      if x[0] == NOT_READY {
        assert s == [ESCAPE, ESCAPE] + rest;
        EscapedNext(ESCAPE, rest, acc);
        PassedCount(x[1..], eof, t, acc + [ESCAPE]);
      } else if IsMarker(x[0]) {
        CodeOf(x[0]);
        assert s == [ESCAPE, ESCAPE] + ([x[0]] + rest);
        EscapedNext(ESCAPE, [x[0]] + rest, acc);
        if x[0] == ESCAPE {
          EscapedCount(x[1..], eof, t, acc + [ESCAPE]);
        } else {
          MarkerEnds(x[0], rest, acc + [ESCAPE]);
        }
      } else {
        CodeOf(x[0]);
        assert s == [ESCAPE, x[0]] + rest;
        EscapedNext(x[0], rest, acc);
        PassedCount(x[1..], eof, t, acc + [x[0]]);
      }
    }
  }

  /** Words read as data word `w`, whatever follows. */
  ghost predicate Reads(more: seq<nat>, w: nat) {
    forall t :: Next(more + t) == (Word(w), t)
  }

  /** Words read as the body `words` so far, whatever follows. */
  ghost predicate Through(taken: seq<nat>, words: seq<nat>) {
    forall t :: Body(taken + t, []) == Body(t, words)
  }

  lemma Split(a: seq<nat>, b: seq<nat>, c: seq<nat>)
    ensures a + b + c == a + (b + c)
  {
  }

  lemma BodyWord(s: seq<nat>, words: seq<nat>, w: nat, rest: seq<nat>)
    requires Next(s) == (Word(w), rest)
    ensures Body(s, words) == Body(rest, words + [w])
  {
  }

  lemma ThroughNone()
    ensures Through([], [])
  {
    assert forall t: seq<nat> :: [] + t == t;
  }

  lemma ThroughWord(taken: seq<nat>, words: seq<nat>, more: seq<nat>, w: nat)
    requires Through(taken, words) && Reads(more, w)
    ensures Through(taken + more, words + [w])
  {
    hide Body, Next;
    forall t ensures Body(taken + more + t, []) == Body(t, words + [w]) {
      Split(taken, more, t);
      BodyWord(more + t, words, w, t);
    }
  }

  lemma ThroughStarved(taken: seq<nat>, words: seq<nat>, more: seq<nat>)
    requires Through(taken, words) && Next(more) == (Starved, [])
    ensures Body(taken + more, []) == Broken(Starved, [])
  {
  }

  /** Words read as all but `left` of `h` header words, whatever follows. */
  ghost predicate Skips(taken: seq<nat>, h: nat, left: nat) {
    forall t :: Parse(taken + t, h) == Parse(t, left)
  }

  lemma SkipsNone(h: nat)
    ensures Skips([], h, h)
  {
    assert forall t: seq<nat> :: [] + t == t;
  }

  lemma SkipsWord(taken: seq<nat>, h: nat, left: nat, more: seq<nat>, w: nat)
    requires Skips(taken, h, left) && left > 0 && Reads(more, w)
    ensures Skips(taken + more, h, left - 1)
  {
    hide Next, Body;
    forall t ensures Parse(taken + more + t, h) == Parse(t, left - 1) {
      Split(taken, more, t);
    }
  }

  lemma SkipsStarved(taken: seq<nat>, h: nat, left: nat, more: seq<nat>)
    requires Skips(taken, h, left) && left > 0 && Next(more) == (Starved, [])
    ensures Parse(taken + more, h) == Broken(Starved, [])
  {
  }

  lemma SkipsAll(taken: seq<nat>, h: nat, more: seq<nat>)
    requires Skips(taken, h, 0)
    ensures Parse(taken + more, h) == Body(more, [])
  {
  }

  lemma WordItem(w: nat)
    ensures !IsMarker(w) ==> Reads([w], w)
  {
    assert forall t: seq<nat> :: ([w] + t)[1..] == t;
  }

  lemma EscapedItem(w: nat)
    ensures Reads([ESCAPE, w], w)
  {
    assert forall t: seq<nat> :: ([ESCAPE, w] + t)[2..] == t;
  }

  lemma CodeOf(w: nat)
    ensures Code(w) == if IsMarker(w) then [ESCAPE, w] else [w]
  {
  }

  /** Whatever follows an escape is taken as a word. */
  lemma EscapedNext(w: nat, rest: seq<nat>, acc: seq<nat>)
    ensures Body([ESCAPE, w] + rest, acc) == Body(rest, acc + [w])
  {
    assert ([ESCAPE, w] + rest)[2..] == rest;
  }

  /** An unescaped marker ends the parse there. */
  lemma MarkerEnds(m: nat, rest: seq<nat>, acc: seq<nat>)
    requires IsMarker(m) && m != ESCAPE && m != NOT_READY
    ensures Body([m] + rest, acc).Frame? ==> Body([m] + rest, acc).words == acc
  {
    assert ([m] + rest)[0] == m;
  }

  /** For every frame, every FIFO stream that carries it with stalls anywhere
      parses back to it exactly when no word of it is the not-ready value. */
  lemma ExtractionRoundTrip(fifo: seq<nat>, header: seq<nat>, data: seq<nat>, unused: nat, tail: seq<nat>)
    requires unused < 4
    requires Strip(fifo) == Strip(FrameWords(header, data, unused) + tail)
    ensures NOT_READY !in header + data <==> Parse(Strip(fifo), |header|) == Frame(data, unused, Strip(tail))
  {
    var x, eof, t := header + data, EofMarker(unused), Strip(tail);
    EncodeAppend(header, data);
    StripAppend(FrameWords(header, data, unused), tail);
    StripAppend(Encode(x), [eof]);
    StripEncode(x);
    assert Strip([eof]) == [eof];
    assert Strip(fifo) == Passed(x) + [eof] + t;
    if NOT_READY in x {
      if Parse(Strip(fifo), |header|) == Frame(data, unused, t) {
        ParseIsBody(Strip(fifo), |header|, []);
        PassedCount(x, eof, t, []);
        assert false;
      }
    } else {
      ParseEncoded(header, data, unused, t);
    }
  }

  // ---------------------------------------------------------------- the port

  datatype RxResult = Nothing | Received(n: nat) | TimedOut | TruncatedFrame | AbortedFrame
                    | ShortHeader | InvalidLength | EmptyFrame | Oversized

  /** What `Receive` reports for a parsed frame and a buffer of `room` bytes. */
  function Verdict(p: Parsed, room: nat): RxResult {
    match p
    case Frame(words, unused, _) =>
      if unused > 4 * |words| then InvalidLength
      else if unused == 4 * |words| then EmptyFrame
      else if 4 * |words| - unused > room then Oversized
      else Received(4 * |words| - unused)
    case Broken(Truncated, _) => TruncatedFrame
    case Broken(Aborted, _) => AbortedFrame
    case Broken(Eof(_), _) => ShortHeader
    case _ => TimedOut
  }

  function WordBytes(words: seq<nat>): (b: seq<byte>)
    ensures |b| == 4 * |words|
  {
    if words == [] then [] else WordBytes(words[..|words| - 1]) + U32(words[|words| - 1])
  }

  /** Words are stored little-endian, one after the other. */
  lemma {:induction false} WordDigits(words: seq<nat>, i: nat, j: nat)
    requires i < |words| && j < 4
    ensures WordBytes(words)[4 * i + j] == words[i] / Weight(j) % 256
    decreases |words|
  {
    var front, last := words[..|words| - 1], words[|words| - 1];
    if i < |front| {
      WordDigits(front, i, j);
    } else {
      assert WordBytes(words)[4 * i + j] == U32(last)[j];
      hide U32, U16, U64;
      Digits(last, j);
    }
  }

  /** As many bytes of the data as the buffer takes, each in its place; bytes of
      the buffer behind the data stay. */
  lemma ReceivedBytes(buf: seq<byte>, data: seq<nat>)
    ensures forall i, j :: 0 <= i < |data| && 0 <= j < 4 && 4 * i + j < |buf| ==>
              Copy(buf, WordBytes(data))[4 * i + j] == data[i] / Weight(j) % 256
    ensures forall k :: 4 * |data| <= k < |buf| ==> Copy(buf, WordBytes(data))[k] == buf[k]
  {
    hide WordBytes, Weight, Copy;
    forall i, j | 0 <= i < |data| && 0 <= j < 4 && 4 * i + j < |buf|
      ensures Copy(buf, WordBytes(data))[4 * i + j] == data[i] / Weight(j) % 256
    {
      WordDigits(data, i, j);
      CopyAt(buf, WordBytes(data), 4 * i + j);
    }
    forall k | 4 * |data| <= k < |buf| ensures Copy(buf, WordBytes(data))[k] == buf[k] {
      CopyAt(buf, WordBytes(data), k);
    }
  }

  datatype Recv = Got(item: Item) | Timeout

  /** Receive statistics. */
  datatype Stats = Stats(timeouts: nat, truncated: nat, aborted: nat, shortHeader: nat, invalid: nat, empty: nat,
      oversized: nat)

  /** The statistics after one more `Receive` that reported `r`. */
  function After(s: Stats, r: RxResult): Stats {
    match r
    case Nothing => s
    case Received(_) => s
    case TimedOut => s.(timeouts := s.timeouts + 1)
    case TruncatedFrame => s.(truncated := s.truncated + 1)
    case AbortedFrame => s.(aborted := s.aborted + 1)
    case ShortHeader => s.(shortHeader := s.shortHeader + 1)
    case InvalidLength => s.(invalid := s.invalid + 1)
    case EmptyFrame => s.(empty := s.empty + 1)
    case Oversized => s.(oversized := s.oversized + 1)
  }

  /** Exactly the counter of the result moves, except that the word behind a
      truncation marker can time out as well. */
  predicate Recorded(s: Stats, s': Stats, r: RxResult) {
    s' == After(s, r) || (r == TruncatedFrame && s' == After(After(s, r), TimedOut))
  }

  /** The stream after a parse: what the parse leaves, except that the word behind
      a truncation marker stays when its read times out. */
  ghost predicate Leaves(p: Parsed, stream: seq<nat>, timedOut: bool) {
    stream == p.rest || (p.Broken? && p.item == Truncated && timedOut && (stream == [] || stream[1..] == p.rest))
  }

  /** What `Receive` reports for an item that ends it. */
  function Ending(r: Recv): RxResult {
    match r
    case Timeout => TimedOut
    case Got(Truncated) => TruncatedFrame
    case Got(Aborted) => AbortedFrame
    case _ => Nothing
  }

  class Port {
    /** The words the extraction FIFO will give, stalls included, and how many were read. */
    const fifo: seq<nat>
    var pos: nat
    const headerLength: nat
    var stats: Stats

    constructor (fifo: seq<nat>, headerLength: nat)
      ensures this.fifo == fifo && pos == 0 && this.headerLength == headerLength
      ensures stats == Stats(0, 0, 0, 0, 0, 0, 0)
    {
      this.fifo, pos, this.headerLength := fifo, 0, headerLength;
      stats := Stats(0, 0, 0, 0, 0, 0, 0);
    }

    /** The information still to come. */
    ghost function Stream(): seq<nat>
      reads this
      requires pos <= |fifo|
    {
      Strip(fifo[pos..])
    }

    /** No stall lies ahead. */
    ghost predicate Flowing()
      reads this
    {
      pos <= |fifo| && NOT_READY !in fifo[pos..]
    }

    /** Read the next word, polling past not-ready until a deadline that allows any number of polls. */
    method Read() returns (val: nat, ok: bool)
      requires pos <= |fifo|
      modifies this`pos, this`stats
      ensures pos <= |fifo|
      ensures ok ==> old(Stream()) == [val] + Stream() && stats == old(stats)
      ensures !ok ==> Stream() == old(Stream()) && stats == After(old(stats), TimedOut)
      ensures old(Flowing()) ==> Flowing() && (ok <==> old(Stream()) != [])
    {
      var polls: nat := *;
      while true
        invariant old(pos) <= pos <= |fifo| && Stream() == old(Stream()) && stats == old(stats)
        invariant old(Flowing()) && old(Stream()) != [] ==> pos == old(pos)
        invariant old(Flowing()) ==> Flowing()
        decreases polls
      {
        if pos < |fifo| {
          val := fifo[pos];
          assert fifo[pos..][1..] == fifo[pos + 1..];
          pos := pos + 1;
          if val != NOT_READY {
            return val, true;
          }
        }
        if polls == 0 {
          stats := stats.(timeouts := stats.timeouts + 1);
          return 0, false;
        }
        polls := polls - 1;
      }
    }

    /** One step of extraction, unless a read times out. */
    method Receive1() returns (r: Recv, ghost taken: seq<nat>)
      requires pos <= |fifo|
      modifies this`pos, this`stats
      ensures pos <= |fifo| && Recorded(old(stats), stats, Ending(r))
      ensures r.Got? ==> r.item == Next(old(Stream())).0 && !r.item.Starved?
      ensures r.Got? ==> Leaves(Broken(r.item, Next(old(Stream())).1), Stream(), stats.timeouts > old(stats).timeouts)
      ensures old(Flowing()) ==> Flowing() && (r == Timeout ==> Next(old(Stream())).0 == Starved)
      ensures old(Stream()) == taken + Stream()
      ensures r == Timeout ==> Next(taken) == (Starved, [])
      ensures r.Got? && r.item.Word? ==> Reads(taken, r.item.w)
    {
      hide Strip;
      taken := [];
      var val, ok := Read();
      if !ok {
        return Timeout, taken;
      }
      taken := [val];
      WordItem(val);
      ghost var s := old(Stream());
      assert s[0] == val && s[1..] == Stream();
      if val == EOF_UNUSED_0 {
        r := Got(Eof(0));
      } else if val == EOF_UNUSED_1 {
        r := Got(Eof(1));
      } else if val == EOF_UNUSED_2 {
        r := Got(Eof(2));
      } else if val == EOF_UNUSED_3 {
        r := Got(Eof(3));
      } else if val == EOF_TRUNCATED {
        val, ok := Read();
        if ok { taken := taken + [val]; }
        stats := stats.(truncated := stats.truncated + 1);
        r := Got(Truncated);
      } else if val == EOF_ABORTED {
        stats := stats.(aborted := stats.aborted + 1);
        r := Got(Aborted);
      } else if val == ESCAPE {
        ghost var t := Stream();
        val, ok := Read();
        if !ok {
          return Timeout, taken;
        }
        taken := [ESCAPE, val];
        EscapedItem(val);
        assert t[0] == val && t[1..] == Stream() && s[2..] == t[1..];
        r := Got(Word(val));
      } else {
        r := Got(Word(val));
      }
    }

    /** Skip the internal frame header, or report why not. */
    method SkipHeader() returns (r: RxResult, ghost taken: seq<nat>)
      requires pos <= |fifo|
      modifies this`pos, this`stats
      ensures pos <= |fifo| && Recorded(old(stats), stats, r)
      ensures old(Flowing()) && r == Nothing ==> Flowing()
      ensures var p := Parse(old(Stream()), (headerLength + 3) / 4);
              && (r == Nothing ==> Body(Stream(), []) == p)
              && (r != Nothing && (r != TimedOut || old(Flowing())) ==>
                  p.Broken? && forall room :: r == Verdict(p, room))
              && (r != Nothing && r != TimedOut ==> Leaves(p, Stream(), stats.timeouts > old(stats).timeouts))
      ensures old(Stream()) == taken + Stream()
      ensures r == Nothing ==> Skips(taken, (headerLength + 3) / 4, 0)
      ensures r == TimedOut ==> Parse(taken, (headerLength + 3) / 4) == Broken(Starved, [])
    {
      hide Next, Body, Strip, Skips, Reads;
      ghost var h := (headerLength + 3) / 4;
      taken := [];
      SkipsNone(h);
      ghost var goal := Parse(old(Stream()), h);
      var i := 0;
      ghost var skipped := 0;
      while i < headerLength
        invariant pos <= |fifo| && i == 4 * skipped && skipped <= h && stats == old(stats)
        invariant old(Flowing()) ==> Flowing()
        invariant Parse(Stream(), h - skipped) == goal
        invariant old(Stream()) == taken + Stream()
        invariant Skips(taken, h, h - skipped)
      {
        var got;
        ghost var more;
        got, more := Receive1();
        ghost var before := taken;
        Split(before, more, Stream());
        taken := taken + more;
        if got == Timeout {
          SkipsStarved(before, h, h - skipped, more);
          return TimedOut, taken;
        }
        if got.item.Eof? {
          stats := stats.(shortHeader := stats.shortHeader + 1);
          return ShortHeader, taken;
        } else if got.item.Truncated? {
          return TruncatedFrame, taken;
        } else if got.item.Aborted? {
          return AbortedFrame, taken;
        }
        SkipsWord(before, h, h - skipped, more, got.item.w);
        i, skipped := i + 4, skipped + 1;
      }
      r := Nothing;
    }

    /** Extract the body of a frame into the buffer. */
    method ReceiveBody(buf: seq<byte>) returns (r: RxResult, out: seq<byte>, ghost taken: seq<nat>)
      requires pos <= |fifo|
      modifies this`pos, this`stats
      ensures pos <= |fifo| && |out| == |buf| && Recorded(old(stats), stats, r)
      ensures r != TimedOut || old(Flowing()) ==>
          var p := Body(old(Stream()), []);
          && r == Verdict(p, |buf|)
          && (p.Frame? ==> Stream() == p.rest && out == Copy(buf, WordBytes(p.words)))
          && (r != TimedOut ==> Leaves(p, Stream(), stats.timeouts > old(stats).timeouts))
      ensures old(Stream()) == taken + Stream()
      ensures r == TimedOut ==> Body(taken, []) == Broken(Starved, [])
    {
      hide Next, Strip, Copy, U32, Through, Reads;
      taken := [];
      ThroughNone();
      NothingCopied(buf);
      out := buf;
      ghost var goal := Body(old(Stream()), []);
      var padded := 0;
      ghost var words: seq<nat> := [];
      while true
        invariant pos <= |fifo| && stats == old(stats)
        invariant old(Flowing()) ==> Flowing()
        invariant padded == 4 * |words| && |out| == |buf| && out == Copy(buf, WordBytes(words))
        invariant Body(Stream(), words) == goal
        invariant old(Stream()) == taken + Stream()
        invariant Through(taken, words)
        decreases |Stream()|
      {
        var got;
        ghost var more;
        got, more := Receive1();
        ghost var before := taken;
        Split(before, more, Stream());
        taken := taken + more;
        if got == Timeout {
          ThroughStarved(before, words, more);
          return TimedOut, out, taken;
        }
        match got.item
        case Truncated =>
          return TruncatedFrame, out, taken;
        case Aborted =>
          return AbortedFrame, out, taken;
        case Eof(unused) =>
          if unused > padded {
            stats := stats.(invalid := stats.invalid + 1);
            return InvalidLength, out, taken;
          }
          var length := padded - unused;
          if length == 0 {
            stats := stats.(empty := stats.empty + 1);
            return EmptyFrame, out, taken;
          } else if length > |buf| {
            stats := stats.(oversized := stats.oversized + 1);
            return Oversized, out, taken;
          }
          return Received(length), out, taken;
        case Word(w) =>
          ThroughWord(before, words, more, w);
          assert (words + [w])[..|words|] == words;
          CopyExtends(buf, WordBytes(words), U32(w));
          if padded < |out| {
            out := out[..padded] + Copy(out[padded..], U32(w));
          }
          padded, words := padded + 4, words + [w];
      }
    }

    /** Receive one frame. Unless a read times out, the result and the buffer are
        those of the parsed stream, and exactly the frame is consumed: an
        oversized frame too. Without stalls ahead only a starved stream times out.
        `taken` are the words consumed: after a timeout they are an unfinished
        frame, and the stream goes on behind them. */
    method Receive(buf: seq<byte>, present: bool) returns (r: RxResult, out: seq<byte>, ghost taken: seq<nat>)
      requires pos <= |fifo|
      modifies this`pos, this`stats
      ensures pos <= |fifo| && |out| == |buf| && Recorded(old(stats), stats, r)
      ensures !present ==> r == Nothing && out == buf && pos == old(pos)
      ensures present && (r != TimedOut || old(Flowing())) ==>
          var p := Parse(old(Stream()), (headerLength + 3) / 4);
          && r == Verdict(p, |buf|)
          && (p.Frame? ==> Stream() == p.rest && out == Copy(buf, WordBytes(p.words)))
          && (r != TimedOut ==> Leaves(p, Stream(), stats.timeouts > old(stats).timeouts))
      ensures old(Stream()) == taken + Stream()
      ensures r == TimedOut ==> Parse(taken, (headerLength + 3) / 4) == Broken(Starved, [])
    {
      if !present {
        return Nothing, buf, [];
      }
      hide Parse, Body, Strip, Copy, WordBytes, Skips;
      r, taken := SkipHeader();
      if r != Nothing {
        return r, buf, taken;
      }
      ghost var more;
      r, out, more := ReceiveBody(buf);
      SkipsAll(taken, (headerLength + 3) / 4, more);
      Split(taken, more, Stream());
      taken := taken + more;
    }

    /** A frame on the wire, with stalls anywhere and anything behind it: unless a
        read times out, which needs a stall, its bytes are received, as far as they
        fit, and exactly its words are consumed. */
    method ReceiveFrame(buf: seq<byte>, ghost header: seq<nat>, ghost data: seq<nat>, ghost unused: nat,
        ghost tail: seq<nat>)
      returns (r: RxResult, out: seq<byte>)
      requires pos <= |fifo| && unused < 4 && NOT_READY !in header + data
      requires |header| == (headerLength + 3) / 4 && Stream() == Strip(FrameWords(header, data, unused) + tail)
      modifies this`pos, this`stats
      ensures pos <= |fifo| && |out| == |buf|
      ensures r == TimedOut ||
          (if 4 * |data| < unused then r == InvalidLength && stats == old(stats).(invalid := old(stats).invalid + 1)
           else if 4 * |data| == unused then r == EmptyFrame && stats == old(stats).(empty := old(stats).empty + 1)
           else if 4 * |data| - unused > |buf| then
             r == Oversized && stats == old(stats).(oversized := old(stats).oversized + 1)
           else r == Received(4 * |data| - unused) && stats == old(stats))
      ensures r != TimedOut ==> Stream() == Strip(tail)
      ensures r != TimedOut ==> forall i, j :: 0 <= i < |data| && 0 <= j < 4 && 4 * i + j < |buf| ==>
          out[4 * i + j] == data[i] / Weight(j) % 256
      ensures r != TimedOut ==> forall k :: 4 * |data| <= k < |buf| ==> out[k] == buf[k]
      ensures old(Flowing()) ==> r != TimedOut
    {
      hide Parse, Strip, Copy, WordBytes, FrameWords, Weight;
      ExtractionRoundTrip(fifo[pos..], header, data, unused, tail);
      ReceivedBytes(buf, data);
      ghost var taken;
      r, out, taken := Receive(buf, true);
    }
  }

  lemma NothingCopied(buf: seq<byte>)
    ensures Copy(buf, []) == buf
  {
  }

  /** Copying one more word behind what was copied. */
  lemma CopyExtends(buf: seq<byte>, b: seq<byte>, w: seq<byte>)
    ensures |b| < |buf| ==> Copy(buf, b)[..|b|] + Copy(Copy(buf, b)[|b|..], w) == Copy(buf, b + w)
    ensures |b| >= |buf| ==> Copy(buf, b + w) == Copy(buf, b)
  {
  }
}
