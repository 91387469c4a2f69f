/** PacketBuilder: packing formatted metric lines into UDP datagrams of at
    most `packetSize` bytes. Lines arrive already encoded as bytes. */
module PacketBuilder {
  import opened Wrappers

  newtype byte = x: int | 0 <= x < 256

  /** One metric line, as the bytes its UTF-8 encoding produces. */
  type Line = seq<byte>

  const Newline: byte := 10

  /** `_terminator`, the UTF-8 encoding of "\n". */
  const Terminator: Line := [Newline]

  const DefaultPacketSize: nat := 512

  /** UTF-8 encoding of a string of ASCII characters: one byte per character. */
  function EncodeAscii(s: string): (b: Line)
    requires forall i :: 0 <= i < |s| ==> s[i] < 128 as char
    ensures |b| == |s|
    ensures forall i :: 0 <= i < |b| ==> b[i] as int == s[i] as int
  {
    seq(|s|, i requires 0 <= i < |s| => s[i] as int as byte)
  }

  /** The lines, each followed by the terminator. */
  function Frame(lines: seq<Line>): Line
  {
    if lines == [] then [] else Frame(lines[..|lines| - 1]) + lines[|lines| - 1] + Terminator
  }

  /** How one emitted packet came about: an over-long line sent on its own,
      or the accumulator holding one or more terminated lines. */
  datatype Packet = Oversized(line: Line) | Framed(lines: seq<Line>)

  function Bytes(p: Packet): Line
  {
    match p
    case Oversized(line) => line
    case Framed(lines) => Frame(lines)
  }

  function AllBytes(ps: seq<Packet>): seq<Line>
  {
    seq(|ps|, i requires 0 <= i < |ps| => Bytes(ps[i]))
  }

  lemma FrameSnoc(lines: seq<Line>, line: Line)
    ensures Frame(lines + [line]) == Frame(lines) + line + Terminator
  {
    assert (lines + [line])[..|lines|] == lines;
  }

  lemma AllBytesSnoc(ps: seq<Packet>, p: Packet)
    ensures AllBytes(ps + [p]) == AllBytes(ps) + [Bytes(p)]
  {
  }

  /** State of the packing loop: packets already yielded, and the lines held
      in the accumulator. */
  datatype PackState = PackState(done: seq<Packet>, pending: seq<Line>)

  /** One iteration of the loop body for `line`. */
  function Step(st: PackState, line: Line, packetSize: nat): PackState
  {
    if |Frame(st.pending)| + |Terminator| + |line| <= packetSize then
      PackState(st.done, st.pending + [line])
    else if |line| >= packetSize then
      PackState(st.done + [Oversized(line)], st.pending)
    else
      PackState(st.done + [Framed(st.pending)], [line])
  }

  /** The loop state after consuming `lines`. */
  function Run(lines: seq<Line>, packetSize: nat): PackState
    decreases |lines|
  {
    if lines == [] then PackState([], [])
    else Step(Run(lines[..|lines| - 1], packetSize), lines[|lines| - 1], packetSize)
  }

  /** The packets in the order they are yielded: the loop's, then a non-empty
      accumulator. */
  function Plan(lines: seq<Line>, packetSize: nat): seq<Packet>
  {
    var st := Run(lines, packetSize);
    st.done + (if st.pending == [] then [] else [Framed(st.pending)])
  }

  /** The byte arrays yielded for `lines`. */
  function Packets(lines: seq<Line>, packetSize: nat): seq<Line>
  {
    AllBytes(Plan(lines, packetSize))
  }

  /** ToMaximumBytePackets(metrics, packetSize): the accumulator `packet` is
      created with capacity `packetSize` (which throws for a negative size),
      then filled line by line as in `Step`, and flushed at the end when
      non-empty. */
  method ToMaximumBytePackets(metrics: seq<Line>, packetSize: int) returns (r: Result<seq<Line>>)
    ensures r.Err? <==> packetSize < 0
    ensures r.Err? ==> r.error == ArgumentOutOfRange("capacity")
    ensures r.Ok? ==> r.value == Packets(metrics, packetSize)
  {
    if packetSize < 0 {
      return Err(ArgumentOutOfRange("capacity"));
    }
    var packets: seq<Line> := [];
    var packet: seq<byte> := [];
    for i := 0 to |metrics|
      invariant packets == AllBytes(Run(metrics[..i], packetSize).done)
      invariant packet == Frame(Run(metrics[..i], packetSize).pending)
    {
      var bytes := metrics[i];
      ghost var st := Run(metrics[..i], packetSize);
      assert metrics[..i + 1][..i] == metrics[..i];
      assert Run(metrics[..i + 1], packetSize) == Step(st, bytes, packetSize);
      if |packet| + |Terminator| + |bytes| <= packetSize {
        FrameSnoc(st.pending, bytes);
        packet := packet + bytes;
        packet := packet + Terminator;
      } else if |bytes| >= packetSize {
        AllBytesSnoc(st.done, Oversized(bytes));
        packets := packets + [bytes];
      } else {
        AllBytesSnoc(st.done, Framed(st.pending));
        FrameSnoc([], bytes);
        assert [] + [bytes] == [bytes];
        packets := packets + [packet];
        packet := [];
        packet := packet + bytes;
        packet := packet + Terminator;
      }
    }
    assert metrics[..|metrics|] == metrics;
    ghost var st := Run(metrics, packetSize);
    FrameEmpty(st.pending);
    if |packet| > 0 {
      AllBytesSnoc(st.done, Framed(st.pending));
      packets := packets + [packet];
    } else {
      assert st.done + [] == st.done;
    }
    return Ok(packets);
  }

  /** The one-argument overload: the sized overload at 512 bytes. */
  method ToMaximumBytePacketsDefault(metrics: seq<Line>) returns (r: seq<Line>)
    ensures r == Packets(metrics, DefaultPacketSize)
  {
    var sized := ToMaximumBytePackets(metrics, DefaultPacketSize);
    r := sized.value;
  }

  // ---------------------------------------------------------------------
  // Properties of the packing

  /** A packet is either an over-long line (at least `packetSize` bytes) or
      a non-empty run of lines, each shorter than `packetSize`, whose framed
      bytes fit in `packetSize`. */
  predicate WellFormed(p: Packet, packetSize: nat)
  {
    match p
    case Oversized(line) => |line| >= packetSize
    case Framed(lines) =>
      && lines != []
      && |Frame(lines)| <= packetSize
      && forall j :: 0 <= j < |lines| ==> |lines[j]| < packetSize
  }

  /** The lines of at least `packetSize` bytes, in input order. */
  function Long(lines: seq<Line>, packetSize: nat): seq<Line>
  {
    if lines == [] then []
    else Long(lines[..|lines| - 1], packetSize)
         + (if |lines[|lines| - 1]| >= packetSize then [lines[|lines| - 1]] else [])
  }

  /** The lines shorter than `packetSize`, in input order. */
  function Short(lines: seq<Line>, packetSize: nat): seq<Line>
  {
    if lines == [] then []
    else Short(lines[..|lines| - 1], packetSize)
         + (if |lines[|lines| - 1]| < packetSize then [lines[|lines| - 1]] else [])
  }

  /** The lines sent alone, in packet order. */
  function OversizedLines(ps: seq<Packet>): seq<Line>
  {
    if ps == [] then []
    else OversizedLines(ps[..|ps| - 1])
         + (if ps[|ps| - 1].Oversized? then [ps[|ps| - 1].line] else [])
  }

  /** The lines sent in accumulator packets, in packet order. */
  function FramedLines(ps: seq<Packet>): seq<Line>
  {
    if ps == [] then []
    else FramedLines(ps[..|ps| - 1])
         + (if ps[|ps| - 1].Framed? then ps[|ps| - 1].lines else [])
  }

  lemma FrameEmpty(lines: seq<Line>)
    ensures Frame(lines) == [] <==> lines == []
  {
  }

  /** What the loop keeps true: every yielded packet is well formed, the
      accumulator fits and holds only short lines, the long lines were sent
      alone in input order, and the short ones sit in accumulator packets
      (or the accumulator) in input order. */
  lemma {:induction false} RunInvariant(lines: seq<Line>, packetSize: nat)
    ensures var st := Run(lines, packetSize);
      && (forall i :: 0 <= i < |st.done| ==> WellFormed(st.done[i], packetSize))
      && |Frame(st.pending)| <= packetSize
      && (forall j :: 0 <= j < |st.pending| ==> |st.pending[j]| < packetSize)
      && OversizedLines(st.done) == Long(lines, packetSize)
      && FramedLines(st.done) + st.pending == Short(lines, packetSize)
    decreases |lines|
  {
    if lines != [] {
      var init, line := lines[..|lines| - 1], lines[|lines| - 1];
      RunInvariant(init, packetSize);
      var st := Run(init, packetSize);
      if |Frame(st.pending)| + |Terminator| + |line| <= packetSize {
        assert Frame(st.pending + [line]) == Frame(st.pending) + line + Terminator by {
          assert (st.pending + [line])[..|st.pending|] == st.pending;
        }
      } else if |line| >= packetSize {
        var done' := st.done + [Oversized(line)];
        assert done'[..|done'| - 1] == st.done;
      } else {
        FrameEmpty(st.pending);
        var done' := st.done + [Framed(st.pending)];
        assert done'[..|done'| - 1] == st.done;
      }
    }
  }

  /** The packets of `lines`: all well formed; the long lines appear alone in
      input order, and the short lines appear in accumulator packets in input
      order. */
  lemma PlanShape(lines: seq<Line>, packetSize: nat)
    ensures var plan := Plan(lines, packetSize);
      && (forall i :: 0 <= i < |plan| ==> WellFormed(plan[i], packetSize))
      && OversizedLines(plan) == Long(lines, packetSize)
      && FramedLines(plan) == Short(lines, packetSize)
  {
    RunInvariant(lines, packetSize);
    var st := Run(lines, packetSize);
    var plan := Plan(lines, packetSize);
    if st.pending != [] {
      assert plan[..|plan| - 1] == st.done;
    } else {
      assert plan == st.done;
    }
  }

  /** No yielded packet is longer than `packetSize` unless it is one of the
      input lines, sent whole; a line of exactly `packetSize` bytes or more is
      sent as-is, without terminator. For `packetSize >= 1` no packet is
      empty. */
  lemma PacketBounds(lines: seq<Line>, packetSize: nat)
    ensures var out := Packets(lines, packetSize);
      && (forall i :: 0 <= i < |out| ==> |out[i]| <= packetSize || out[i] in lines)
      && (packetSize >= 1 ==> forall i :: 0 <= i < |out| ==> out[i] != [])
  {
    var plan := Plan(lines, packetSize);
    var out := Packets(lines, packetSize);
    PlanShape(lines, packetSize);
    forall i | 0 <= i < |out|
      ensures |out[i]| <= packetSize || out[i] in lines
      ensures packetSize >= 1 ==> out[i] != []
    {
      if plan[i].Oversized? {
        OversizedInLong(plan, i);
        LongIn(lines, packetSize, plan[i].line);
      } else {
        FrameEmpty(plan[i].lines);
      }
    }
  }

  lemma {:induction false} OversizedInLong(ps: seq<Packet>, i: nat)
    requires i < |ps| && ps[i].Oversized?
    ensures ps[i].line in OversizedLines(ps)
    decreases |ps|
  {
    if i < |ps| - 1 {
      OversizedInLong(ps[..|ps| - 1], i);
    }
  }

  lemma {:induction false} LongIn(lines: seq<Line>, packetSize: nat, l: Line)
    requires l in Long(lines, packetSize)
    ensures l in lines && |l| >= packetSize
    decreases |lines|
  {
    if l !in Long(lines[..|lines| - 1], packetSize) {
      assert l == lines[|lines| - 1];
    } else {
      LongIn(lines[..|lines| - 1], packetSize, l);
    }
  }

  /** Every input line is sent in exactly one packet: together the lone lines
      and the accumulated lines are the input, counted with multiplicity. */
  lemma {:induction false} LinesConserved(lines: seq<Line>, packetSize: nat)
    ensures var plan := Plan(lines, packetSize);
      multiset(OversizedLines(plan)) + multiset(FramedLines(plan)) == multiset(lines)
  {
    PlanShape(lines, packetSize);
    SplitConserves(lines, packetSize);
  }

  lemma {:induction false} SplitConserves(lines: seq<Line>, packetSize: nat)
    ensures multiset(Long(lines, packetSize)) + multiset(Short(lines, packetSize)) == multiset(lines)
    decreases |lines|
  {
    if lines != [] {
      var init := lines[..|lines| - 1];
      SplitConserves(init, packetSize);
      assert lines == init + [lines[|lines| - 1]];
    }
  }

  /** Without long lines, nothing is sent alone. */
  lemma {:induction false} ShortOnly(lines: seq<Line>, packetSize: nat)
    requires forall i :: 0 <= i < |lines| ==> |lines[i]| < packetSize
    ensures Long(lines, packetSize) == [] && Short(lines, packetSize) == lines
    decreases |lines|
  {
    if lines != [] {
      ShortOnly(lines[..|lines| - 1], packetSize);
      assert lines[..|lines| - 1] + [lines[|lines| - 1]] == lines;
    }
  }

  function Concat(ls: seq<Line>): Line
  {
    if ls == [] then [] else Concat(ls[..|ls| - 1]) + ls[|ls| - 1]
  }

  lemma {:induction false} FrameAppend(a: seq<Line>, b: seq<Line>)
    ensures Frame(a + b) == Frame(a) + Frame(b)
    decreases |b|
  {
    if b == [] {
      assert a + b == a;
    } else {
      var b', l := b[..|b| - 1], b[|b| - 1];
      FrameAppend(a, b');
      assert (a + b)[..|a + b| - 1] == a + b';
    }
  }

  lemma {:induction false} ConcatFramed(ps: seq<Packet>)
    requires OversizedLines(ps) == []
    ensures Concat(AllBytes(ps)) == Frame(FramedLines(ps))
    decreases |ps|
  {
    if ps != [] {
      var init := ps[..|ps| - 1];
      ConcatFramed(init);
      assert ps == init + [ps[|ps| - 1]];
      AllBytesSnoc(init, ps[|ps| - 1]);
      assert AllBytes(ps)[..|AllBytes(ps)| - 1] == AllBytes(init);
      FrameAppend(FramedLines(init), ps[|ps| - 1].lines);
    }
  }

  /** Round trip: when every line is shorter than `packetSize`, the packets
      put together are exactly the input lines, each followed by "\n". */
  lemma PacketsRoundTrip(lines: seq<Line>, packetSize: nat)
    requires forall i :: 0 <= i < |lines| ==> |lines[i]| < packetSize
    ensures Concat(Packets(lines, packetSize)) == Frame(lines)
  {
    PlanShape(lines, packetSize);
    ShortOnly(lines, packetSize);
    ConcatFramed(Plan(lines, packetSize));
  }

  /** Position of the first newline of `b`, or |b| if there is none. */
  function IndexOfNewline(b: Line): (k: nat)
    ensures k <= |b|
    ensures forall j :: 0 <= j < k ==> b[j] != Newline
    ensures k < |b| ==> b[k] == Newline
  {
    if b == [] || b[0] == Newline then 0 else 1 + IndexOfNewline(b[1..])
  }

  /** Splits newline-terminated lines apart. */
  function SplitLines(b: Line): seq<Line>
    decreases |b|
  {
    if b == [] then []
    else
      var k := IndexOfNewline(b);
      if k == |b| then [b] else [b[..k]] + SplitLines(b[k + 1..])
  }

  lemma {:induction false} SplitFrame(lines: seq<Line>)
    requires forall i :: 0 <= i < |lines| ==> Newline !in lines[i]
    ensures SplitLines(Frame(lines)) == lines
    decreases |lines|
  {
    if lines != [] {
      var l, rest := lines[0], lines[1..];
      FrameAppend([l], rest);
      assert [l] + rest == lines;
      assert Frame([l]) == l + Terminator by {
        assert [l][..0] == [];
      }
      var b := Frame(lines);
      assert b == l + (Terminator + Frame(rest));
      assert Newline !in l by {
        assert l == lines[0];
      }
      assert forall i :: 0 <= i < |rest| ==> Newline !in rest[i] by {
        forall i | 0 <= i < |rest| ensures Newline !in rest[i] {
          assert rest[i] == lines[i + 1];
        }
      }
      IndexOfNewlineAt(l, Terminator + Frame(rest));
      assert b[..|l|] == l;
      assert b[|l| + 1..] == Frame(rest);
      SplitFrame(rest);
      assert SplitLines(b) == [l] + SplitLines(Frame(rest));
    }
  }

  lemma {:induction false} IndexOfNewlineAt(l: Line, tail: Line)
    requires Newline !in l && tail != [] && tail[0] == Newline
    ensures IndexOfNewline(l + tail) == |l|
    decreases |l|
  {
    if l != [] {
      assert (l + tail)[1..] == l[1..] + tail;
      IndexOfNewlineAt(l[1..], tail);
    }
  }

  /** Splitting the concatenated packets at their newlines gives back the
      input, when every line is shorter than `packetSize` and has no newline
      of its own. */
  lemma NewlineSplitRoundTrip(lines: seq<Line>, packetSize: nat)
    requires forall i :: 0 <= i < |lines| ==> |lines[i]| < packetSize && Newline !in lines[i]
    ensures SplitLines(Concat(Packets(lines, packetSize))) == lines
  {
    PacketsRoundTrip(lines, packetSize);
    SplitFrame(lines);
  }

  /** A single line of at least `packetSize` bytes is yielded as its own raw
      bytes; a shorter one is yielded with its terminator. */
  lemma SingleLine(line: Line, packetSize: nat)
    ensures |line| >= packetSize ==> Packets([line], packetSize) == [line]
    ensures |line| < packetSize ==> Packets([line], packetSize) == [line + Terminator]
  {
    assert [line][..0] == [];
    assert Run([line], packetSize) == Step(PackState([], []), line, packetSize);
    FrameSnoc([], line);
    assert [] + [line] == [line];
    if |line| >= packetSize {
      assert Plan([line], packetSize) == [Oversized(line)];
    } else {
      assert Plan([line], packetSize) == [Framed([line])];
      assert Frame([line]) == line + Terminator;
      assert AllBytes([Framed([line])]) == [Frame([line])];
    }
  }

  /** No input, no packets. */
  lemma EmptyInput(packetSize: nat)
    ensures Packets([], packetSize) == []
  {
  }

  /** Two lines that fit together share one packet. */
  lemma {:induction false} TwoLinesShareAPacket(a: Line, b: Line, packetSize: nat)
    requires |a| + |b| + 2 <= packetSize
    ensures Packets([a, b], packetSize) == [a + Terminator + b + Terminator]
  {
    assert [a][..0] == [];
    assert [a, b][..1] == [a];
    FrameSnoc([], a);
    assert [] + [a] == [a];
    FrameSnoc([a], b);
    assert [a] + [b] == [a, b];
    assert Frame([a]) == a + Terminator;
    assert Frame([a, b]) == a + Terminator + b + Terminator;
    assert Run([a], packetSize) == PackState([], [a]);
    assert Run([a, b], packetSize) == Step(PackState([], [a]), b, packetSize);
    assert Plan([a, b], packetSize) == [Framed([a, b])];
    assert AllBytes([Framed([a, b])]) == [Frame([a, b])];
  }

  /** "a:1|c" and "b:320|ms" at 512 bytes travel in one packet,
      "a:1|c\nb:320|ms\n". */
  lemma TwoLinesOnePacket()
    ensures Packets([EncodeAscii("a:1|c"), EncodeAscii("b:320|ms")], DefaultPacketSize)
         == [EncodeAscii("a:1|c\nb:320|ms\n")]
  {
    var a, b := EncodeAscii("a:1|c"), EncodeAscii("b:320|ms");
    assert a == [97, 58, 49, 124, 99];
    assert b == [98, 58, 51, 50, 48, 124, 109, 115];
    assert EncodeAscii("a:1|c\nb:320|ms\n") == a + Terminator + b + Terminator;
    TwoLinesShareAPacket(a, b, DefaultPacketSize);
  }

  /** The ordering quirk: an over-long line is yielded at once while the
      partly filled accumulator stays pending, so it overtakes the line read
      before it. With 4-byte packets, "a" then "bcdef" go out as "bcdef" and
      then "a\n". */
  lemma OversizedOvertakesPending()
    ensures Packets([[97], [98, 99, 100, 101, 102]], 4) == [[98, 99, 100, 101, 102], [97, 10]]
  {
    var a, long: Line := [97], [98, 99, 100, 101, 102];
    assert [a, long][..1] == [a];
    assert [a][..0] == [];
    FrameSnoc([], a);
    assert [] + [a] == [a];
    assert Frame([a]) == [97, 10];
    assert Run([a], 4) == PackState([], [a]);
    assert Run([a, long], 4) == Step(Run([a], 4), long, 4);
    var st := Run([a, long], 4);
    assert st == PackState([Oversized(long)], [a]);
    var plan := Plan([a, long], 4);
    assert plan == [Oversized(long), Framed([a])];
    assert plan[..1] == [Oversized(long)];
  }
}
