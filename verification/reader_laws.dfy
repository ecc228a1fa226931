/**
 The two readers, one of which takes every byte as it comes while the other
 waits for a whole checksum, receive the same telegrams: both do what a
 receiver of whole telegrams does, however the bytes arrive in pieces. When a
 telegram is kept or lost, and when loop() and available() differ.
 */
module ReaderLaws {
  import opened Crc16
  import opened Text
  import opened Checksum
  import opened Numbers
  import opened NumberLaws
  import opened Decoder
  import opened Fields
  import opened FieldLaws
  import opened Obis
  import opened ObisLaws
  import opened TelegramLaws
  import opened Receiver
  import opened ReceiverLaws
  import opened Agreement
  import opened Recovery
  import opened Readers

  // -------------------------------------------------- receiving telegrams

  /** Noise, a telegram, and either a line end or four digits as its suffix. */
  datatype Transmission = Transmission(noise: string, body: string, suffix: string) {

    predicate Valid() {
      && '/' !in noise && All(NotBang, body)
      && (if |suffix| == 1 then IsEol(suffix[0]) else |suffix| == CRC_LEN && All(IsHex, suffix))
    }

    function Text(): string {
      noise + ("/" + body + "!" + suffix)
    }
  }

  /** What one telegram does to the diagnostics, and whether it is delivered. */
  function Receive(t: Tracker, g: Transmission): (Tracker, bool)
    requires g.Valid()
  {
    if |g.suffix| == 1 then
      if t.mode == Present then (t.RecordError(), false) else (t.Observe(false), true)
    else if t.mode != Absent && HexValue(g.suffix) == Crc("/" + g.body + "!") then (t.Observe(true), true)
    else (t.RecordError(), false)
  }

  function ReceiveAll(t: Tracker, gs: seq<Transmission>): (Tracker, seq<string>)
    requires forall i :: 0 <= i < |gs| ==> gs[i].Valid()
    decreases |gs|
  {
    if gs == [] then (t, []) else
    var (t', delivered) := Receive(t, gs[0]);
    var (t'', bodies) := ReceiveAll(t', gs[1..]);
    (t'', (if delivered then [gs[0].body] else []) + bodies)
  }

  function AllText(gs: seq<Transmission>): string {
    if gs == [] then "" else gs[0].Text() + AllText(gs[1..])
  }

  function Joined(chunks: seq<string>): string {
    if chunks == [] then "" else Joined(chunks[..|chunks| - 1]) + chunks[|chunks| - 1]
  }

  // ----------------------------------------------------------- fixed reader

  /** A client that calls loop() until the stream is empty and takes every telegram. */
  function FixedClient(capacity: nat, f: Fixed, q: string): (Fixed, seq<string>)
    decreases |q|
  {
    if q == "" then (f, []) else
    LoopConsumes(capacity, f, q);
    var (g, rest, _) := FixedLoop(capacity, f, q);
    var (h, bodies) := FixedClient(capacity, FixedCleared(g), rest);
    (h, (if g.available then [g.acc.body] else []) + bodies)
  }

  lemma {:induction false} LoopConsumes(capacity: nat, f: Fixed, q: string)
    ensures |FixedLoop(capacity, f, q).1| <= |q|
    ensures q != "" ==> |FixedLoop(capacity, f, q).1| < |q|
    decreases |q|
  {
    hide Step;
    if q != "" {
      var acc := Step(capacity, true, f.acc, q[0]).0;
      LoopConsumes(capacity, f, q[1..]);
      LoopConsumes(capacity, f.(acc := acc), q[1..]);
      LoopConsumes(capacity, f.(acc := acc, available := false), q[1..]);
    }
  }

  function FixedChunks(capacity: nat, f: Fixed, chunks: seq<string>): (Fixed, seq<string>) {
    if chunks == [] then (f, []) else
    var (g, bodies) := FixedChunks(capacity, f, chunks[..|chunks| - 1]);
    var (h, more) := FixedClient(capacity, g, chunks[|chunks| - 1]);
    (h, bodies + more)
  }

  /** The accumulator alone, cleared after every telegram. */
  function Collect(capacity: nat, a: Acc, s: string): (Acc, seq<string>) {
    if s == "" then (a, []) else
    var (b, bodies) := Collect(capacity, a, s[..|s| - 1]);
    var (c, r) := Step(capacity, true, b, s[|s| - 1]);
    if r == Complete then (Idle(c.tracker), bodies + [c.body]) else (c, bodies)
  }

  lemma {:induction false} CollectPush(capacity: nat, a: Acc, s: string, c: char)
    ensures var (b, bodies) := Collect(capacity, a, s);
            var (d, r) := Step(capacity, true, b, c);
            Collect(capacity, a, s + [c]) == if r == Complete then (Idle(d.tracker), bodies + [d.body]) else (d, bodies)
  {
    hide Step;
    assert (s + [c])[..|s|] == s;
  }

  lemma {:induction false} CollectAppend(capacity: nat, a: Acc, s: string, t: string)
    ensures var (b, bodies) := Collect(capacity, a, s);
            var (c, more) := Collect(capacity, b, t);
            Collect(capacity, a, s + t) == (c, bodies + more)
  {
    hide Step;
    var (b, bodies) := Collect(capacity, a, s);
    if t == "" {
      assert s + t == s && bodies + [] == bodies;
    } else {
      var u, c := t[..|t| - 1], t[|t| - 1];
      CollectAppend(capacity, a, s, u);
      assert s + t == s + u + [c] && t == u + [c];
      CollectPush(capacity, a, s + u, c);
      CollectPush(capacity, b, u, c);
      var (d, more) := Collect(capacity, b, u);
      var e := Step(capacity, true, d, c).0;
      assert bodies + (more + [e.body]) == bodies + more + [e.body];
    }
  }

  lemma {:induction false} CollectOne(capacity: nat, a: Acc, c: char)
    ensures var (d, r) := Step(capacity, true, a, c);
            Collect(capacity, a, [c]) == if r == Complete then (Idle(d.tracker), [d.body]) else (d, [])
  {
    hide Step;
    CollectPush(capacity, a, "", c);
    assert "" + [c] == [c] && [] + [Step(capacity, true, a, c).0.body] == [Step(capacity, true, a, c).0.body];
  }

  /** Bytes that lead to no verdict deliver nothing. */
  lemma {:induction false} CollectQuiet(capacity: nat, a: Acc, s: string)
    requires FirstVerdict(capacity, a, s) == None
    ensures Collect(capacity, a, s) == (Feed(capacity, a, s).0, [])
  {
    hide Step;
    if s != "" {
      var u, c := s[..|s| - 1], s[|s| - 1];
      assert s == u + [c];
      FeedPush(capacity, a, u, c);
      FirstPush(Feed(capacity, a, u).1, Step(capacity, true, Feed(capacity, a, u).0, c).1);
      CollectQuiet(capacity, a, u);
    }
  }

  predicate Ready(f: Fixed) {
    f.enabled && !f.once && !f.available
  }

  /** A client of an enabled reader collects what the accumulator does. */
  lemma {:induction false} ClientCollects(capacity: nat, f: Fixed, q: string)
    requires Ready(f)
    ensures var (a, bodies) := Collect(capacity, f.acc, q);
            FixedClient(capacity, f, q) == (f.(acc := a), bodies)
    decreases |q|
  {
    hide Step, Idle;
    if q != "" {
      var (acc, r) := Step(capacity, true, f.acc, q[0]);
      var rest := q[1..];
      assert q == [q[0]] + rest;
      CollectOne(capacity, f.acc, q[0]);
      CollectAppend(capacity, f.acc, [q[0]], rest);
      if r == Complete {
        ClientCollects(capacity, f.(acc := Idle(acc.tracker)), rest);
      } else {
        var g := f.(acc := acc);
        ClientCollects(capacity, g, rest);
        LoopThenClient(capacity, f, q);
        assert [] + Collect(capacity, acc, rest).1 == Collect(capacity, acc, rest).1;
      }
    }
  }

  /** A byte that completes nothing only moves the loop on. */
  lemma {:induction false} LoopThenClient(capacity: nat, f: Fixed, q: string)
    requires Ready(f) && q != "" && Step(capacity, true, f.acc, q[0]).1 != Complete
    ensures FixedClient(capacity, f, q) == FixedClient(capacity, f.(acc := Step(capacity, true, f.acc, q[0]).0), q[1..])
  {
    hide Step, Idle, FixedClient;
    var g := f.(acc := Step(capacity, true, f.acc, q[0]).0);
    assert FixedLoop(capacity, f, q) == FixedLoop(capacity, g, q[1..]);
    FixedClientUnfolds(capacity, f, q);
    FixedClientUnfolds(capacity, g, q[1..]);
    if q[1..] == "" {
      assert FixedLoop(capacity, g, q[1..]) == (g, "", false);
    }
  }

  lemma {:induction false} FixedClientUnfolds(capacity: nat, f: Fixed, q: string)
    ensures q == "" ==> FixedClient(capacity, f, q) == (f, [])
    ensures var l := FixedLoop(capacity, f, q);
            var c := FixedClient(capacity, FixedCleared(l.0), l.1);
            q != "" || !f.available ==>
              FixedClient(capacity, f, q) == (c.0, (if l.0.available then [l.0.acc.body] else []) + c.1)
  {
    hide Step, Idle;
    var none: seq<string> := [];
    assert none + none == none;
  }

  lemma {:induction false} ChunksCollect(capacity: nat, f: Fixed, chunks: seq<string>)
    requires Ready(f)
    ensures var (a, bodies) := Collect(capacity, f.acc, Joined(chunks));
            FixedChunks(capacity, f, chunks) == (f.(acc := a), bodies)
  {
    hide Step, FixedClient;
    if chunks != [] {
      var front, last := chunks[..|chunks| - 1], chunks[|chunks| - 1];
      ChunksCollect(capacity, f, front);
      CollectAppend(capacity, f.acc, Joined(front), last);
      ClientCollects(capacity, f.(acc := Collect(capacity, f.acc, Joined(front)).0), last);
    }
  }

  lemma {:induction false} CollectSuffix(capacity: nat, t: Tracker, g: Transmission)
    requires g.Valid()
    ensures var (a, bodies) := Collect(capacity, Closed(t, g.body), g.suffix);
            var (t', delivered) := Receive(t, g);
            a.state == WaitingState && a.tracker == t' && bodies == if delivered then [g.body] else []
  {
    hide Push, Crc, CrcParse, IsHex, HexValue, Feed, First, FirstVerdict, Collect;
    var a, h := Closed(t, g.body), g.suffix;
    if |h| == 1 {
      assert h == [h[0]];
      CollectOne(capacity, a, h[0]);
    } else if t.mode == Absent {
      EolIsNotHex(h[0]);
      CollectOne(capacity, a, h[0]);
      assert h == [h[0]] + h[1..];
      CollectAppend(capacity, a, [h[0]], h[1..]);
      HexHasNoSlash(h);
      WaitingSkips(capacity, Idle(t.RecordError()), h[1..]);
      CollectQuiet(capacity, Idle(t.RecordError()), h[1..]);
    } else {
      FeedDigits(capacity, t, g.body, h[..3]);
      CollectQuiet(capacity, a, h[..3]);
      var b := a.(suffix := h[..3]);
      EolIsNotHex(h[3]);
      CollectOne(capacity, b, h[3]);
      assert h == h[..3] + [h[3]];
      CollectAppend(capacity, a, h[..3], [h[3]]);
      CrcParseHex(h);
    }
  }

  lemma HexHasNoSlash(h: string)
    requires All(IsHex, h)
    ensures '/' !in h
  {
    hide IsHex;
    SlashIsNotHex();
  }

  lemma {:induction false} CollectTelegram(capacity: nat, a: Acc, g: Transmission)
    requires a.state == WaitingState && g.Valid() && Fits(capacity, g.body)
    ensures var (b, bodies) := Collect(capacity, a, g.Text());
            var (t, delivered) := Receive(a.tracker, g);
            b.state == WaitingState && b.tracker == t && bodies == if delivered then [g.body] else []
  {
    hide Step, Crc, HexValue, Feed, FirstVerdict, Collect, Receive;
    var head := "/" + g.body + "!";
    CollectAppend(capacity, a, g.noise, head + g.suffix);
    WaitingSkips(capacity, a, g.noise);
    CollectQuiet(capacity, a, g.noise);
    CollectAppend(capacity, a, head, g.suffix);
    FeedClosed(capacity, a, g.body);
    CollectQuiet(capacity, a, head);
    CollectSuffix(capacity, a.tracker, g);
  }

  lemma {:induction false} CollectAll(capacity: nat, a: Acc, gs: seq<Transmission>, tail: string)
    requires a.state == WaitingState && '/' !in tail
    requires forall i :: 0 <= i < |gs| ==> gs[i].Valid() && Fits(capacity, gs[i].body)
    ensures var (b, bodies) := Collect(capacity, a, AllText(gs) + tail);
            (b.tracker, bodies) == ReceiveAll(a.tracker, gs)
    decreases |gs|
  {
    hide Step, Feed, FirstVerdict, Collect, Receive, Fits;
    if gs == [] {
      assert AllText(gs) + tail == tail;
      WaitingSkips(capacity, a, tail);
      CollectQuiet(capacity, a, tail);
    } else {
      assert AllText(gs) + tail == gs[0].Text() + (AllText(gs[1..]) + tail);
      CollectAppend(capacity, a, gs[0].Text(), AllText(gs[1..]) + tail);
      CollectTelegram(capacity, a, gs[0]);
      CollectAll(capacity, Collect(capacity, a, gs[0].Text()).0, gs[1..], tail);
    }
  }

  // ---------------------------------------------------------- string reader

  /** Nothing more happens until further bytes arrive. */
  predicate Stuck(r: Reader, q: string) {
    || q == ""
    || (r.state == ChecksumReader && |q| < CRC_LEN && !IsEol(q[0]) && r.tracker.mode != Absent && IsHex(q[0]))
  }

  function Rank(r: Reader): nat {
    if r.state == ChecksumReader then 1 else 0
  }

  /** A client that calls loop() until it is stuck and takes every telegram. */
  function ReaderClient(r: Reader, q: string): (Reader, string, seq<string>)
    decreases |q|, Rank(r)
  {
    if Stuck(r, q) then (r, q, []) else
    ReaderLoopProgress(r, q);
    var (s, rest, _) := ReaderLoop(r, q);
    var (u, left, bodies) := ReaderClient(ReaderCleared(s), rest);
    (u, left, (if s.available then [s.buffer] else []) + bodies)
  }

  lemma {:induction false} ReaderLoopProgress(r: Reader, q: string)
    requires !Stuck(r, q)
    ensures var (s, rest, _) := ReaderLoop(r, q);
            |rest| < |q| || (|rest| == |q| && Rank(s) < Rank(r))
    decreases |q|
  {
    hide ReadByte, Checks, IsHex;
    match Poll(r, q) {
      case Stop(s, rest, _) =>
      case Go(s, rest) =>
        if Stuck(s, rest) {
          StuckStops(s, rest);
        } else {
          ReaderLoopProgress(s, rest);
        }
    }
  }

  lemma {:induction false} StuckStops(r: Reader, q: string)
    requires Stuck(r, q)
    ensures ReaderLoop(r, q) == (r, q, false)
  {
    hide ReadByte, Checks, IsHex;
  }

  function ReaderChunks(r: Reader, chunks: seq<string>): (Reader, string, seq<string>) {
    if chunks == [] then (r, "", []) else
    var (s, left, bodies) := ReaderChunks(r, chunks[..|chunks| - 1]);
    var (u, left', more) := ReaderClient(s, left + chunks[|chunks| - 1]);
    (u, left', bodies + more)
  }

  predicate Listening(r: Reader) {
    r.state != DisabledReader && !r.once && !r.available
  }

  /** The client turn by turn. */
  lemma {:induction false} ClientTurn(r: Reader, q: string)
    requires Listening(r) && !Stuck(r, q)
    ensures match Poll(r, q)
            case Go(s, rest) => Listening(s) && |rest| < |q| && ReaderClient(r, q) == ReaderClient(s, rest)
            case Stop(s, rest, _) =>
              && Listening(ReaderCleared(s)) && (|rest| < |q| || (|rest| == |q| && Rank(ReaderCleared(s)) < Rank(r)))
              && var (u, left, bodies) := ReaderClient(ReaderCleared(s), rest);
                 ReaderClient(r, q) == (u, left, (if s.available then [s.buffer] else []) + bodies)
  {
    hide Checks, IsHex, Push, ReaderClient;
    ReaderLoopProgress(r, q);
    ReaderClientUnfolds(r, q);
    match Poll(r, q) {
      case Stop(s, rest, _) =>
      case Go(s, rest) =>
        assert ReaderLoop(r, q) == ReaderLoop(s, rest);
        assert Listening(s) && ReaderCleared(s) == s;
        ReaderClientUnfolds(s, rest);
        if Stuck(s, rest) {
          StuckStops(s, rest);
          assert [] + ReaderClient(s, rest).2 == ReaderClient(s, rest).2;
        }
    }
  }

  lemma {:induction false} ReaderClientUnfolds(r: Reader, q: string)
    ensures Stuck(r, q) ==> ReaderClient(r, q) == (r, q, [])
    ensures !Stuck(r, q) ==>
              var l := ReaderLoop(r, q);
              var c := ReaderClient(ReaderCleared(l.0), l.1);
              ReaderClient(r, q) == (c.0, c.1, (if l.0.available then [l.0.buffer] else []) + c.2)
  {
    hide Checks, IsHex, Push, ReaderLoop;
  }

  lemma PollLooksAhead(r: Reader, q: string, z: string)
    requires Listening(r) && !Stuck(r, q)
    ensures !Stuck(r, q + z)
    ensures match Poll(r, q)
            case Go(s, rest) => Poll(r, q + z) == Go(s, rest + z)
            case Stop(s, rest, result) => Poll(r, q + z) == Stop(s, rest + z, result)
  {
    hide Checks, IsHex, ReadByte;
    assert (q + z)[0] == q[0] && (q + z)[1..] == q[1..] + z;
    if |q| >= CRC_LEN {
      assert (q + z)[..CRC_LEN] == q[..CRC_LEN] && (q + z)[CRC_LEN..] == q[CRC_LEN..] + z;
    }
  }

  /** It does not matter whether bytes arrive now or later. */
  lemma {:induction false} ClientAppend(r: Reader, q: string, z: string)
    requires Listening(r)
    ensures var (s, left, bodies) := ReaderClient(r, q);
            var (u, left', more) := ReaderClient(s, left + z);
            Listening(s) && ReaderClient(r, q + z) == (u, left', bodies + more)
    decreases |q|, Rank(r)
  {
    hide Checks, IsHex, Push, Poll;
    if Stuck(r, q) {
      var (u, left', more) := ReaderClient(r, q + z);
      assert [] + more == more;
    } else {
      ClientTurn(r, q);
      PollLooksAhead(r, q, z);
      ClientTurn(r, q + z);
      match Poll(r, q) {
        case Go(s, rest) => ClientAppend(s, rest, z);
        case Stop(s, rest, _) =>
          ClientAppend(ReaderCleared(s), rest, z);
          var (u, left, bodies) := ReaderClient(ReaderCleared(s), rest);
          var more := ReaderClient(u, left + z).2;
          Associative(if s.available then [s.buffer] else [], bodies, more);
      }
    }
  }

  lemma {:induction false} ChunksAsOne(r: Reader, chunks: seq<string>)
    requires Listening(r)
    ensures ReaderChunks(r, chunks) == ReaderClient(r, Joined(chunks))
    ensures Listening(ReaderChunks(r, chunks).0)
  {
    hide Poll, ReaderClient;
    if chunks == [] {
      NothingArrived(r);
    } else {
      var front, last := chunks[..|chunks| - 1], chunks[|chunks| - 1];
      ChunksAsOne(r, front);
      ClientAppend(r, Joined(front), last);
      ClientKeepsListening(r, Joined(chunks));
    }
  }

  lemma {:induction false} NothingArrived(r: Reader)
    ensures ReaderClient(r, "") == (r, "", [])
  {}

  lemma {:induction false} ClientKeepsListening(r: Reader, q: string)
    requires Listening(r)
    ensures Listening(ReaderClient(r, q).0)
  {
    hide Poll, ReaderClient;
    ClientAppend(r, q, "");
  }

  // ------------------------------------------- the string reader, telegram by telegram

  predicate Fresh(r: Reader, t: Tracker) {
    r.state == WaitingReader && Listening(r) && r.buffer == "" && r.tracker == t
  }

  lemma {:induction false} ReaderSkips(r: Reader, s: string, z: string)
    requires r.state == WaitingReader && Listening(r) && '/' !in s
    ensures ReaderClient(r, s + z) == ReaderClient(r, z)
    decreases |s|
  {
    hide Checks, IsHex, ReaderClient, Push;
    if s == "" {
      assert s + z == z;
    } else {
      ClientTurn(r, s + z);
      assert (s + z)[1..] == s[1..] + z;
      ReaderSkips(r, s[1..], z);
    }
  }

  function ReadingBody(t: Tracker, body: string): Reader {
    Reader(ReadingReader, false, false, body, if t.mode == Absent then 0 else Crc("/" + body), t, false)
  }

  function AtSuffix(t: Tracker, body: string): Reader {
    Reader(ChecksumReader, false, false, body, if t.mode == Absent then 0 else Crc("/" + body + "!"), t, false)
  }

  lemma {:induction false} ReaderReadsBody(t: Tracker, body: string, s: string, z: string)
    requires All(NotBang, s)
    ensures ReaderClient(ReadingBody(t, body), s + "!" + z) == ReaderClient(AtSuffix(t, body + s), z)
    decreases |s|
  {
    hide Checks, IsHex, ReaderClient, Push, Crc;
    var r, q := ReadingBody(t, body), s + "!" + z;
    ClientTurn(r, q);
    if s == "" {
      assert q == ['!'] + z && q[1..] == z && body + s == body;
      CrcGrows("/" + body, '!');
      assert "/" + body + "!" == "/" + body + ['!'];
    } else {
      assert q[1..] == s[1..] + "!" + z;
      CrcGrows("/" + body, s[0]);
      assert "/" + body + [s[0]] == "/" + (body + [s[0]]);
      ReaderReadsBody(t, body + [s[0]], s[1..], z);
      assert body + [s[0]] + s[1..] == body + s;
    }
  }

  lemma {:induction false} ReaderOpens(r: Reader, t: Tracker, z: string)
    requires Fresh(r, t)
    ensures ReaderClient(r, "/" + z) == ReaderClient(ReadingBody(t, ""), z)
  {
    hide Checks, IsHex, ReaderClient, Push, Crc;
    ClientTurn(r, "/" + z);
    assert ("/" + z)[1..] == z;
    CrcOfSlash();
    assert "/" + "" == "/";
  }

  lemma ReaderSuffix(g: Transmission, t: Tracker, z: string) returns (r: Reader)
    requires g.Valid()
    ensures var (t', delivered) := Receive(t, g);
            var (u, left, bodies) := ReaderClient(r, z);
            Fresh(r, t') && ReaderClient(AtSuffix(t, g.body), g.suffix + z) == (u, left, (if delivered then [g.body] else []) + bodies)
  {
    hide IsHex, ReaderClient, Crc, CrcParse, HexValue;
    var a, q := AtSuffix(t, g.body), g.suffix + z;
    assert q[0] == g.suffix[0];
    EolIsNotHex(q[0]);
    ClientTurn(a, q);
    if |g.suffix| == 1 {
      assert q[1..] == z;
    } else {
      assert q[..CRC_LEN] == g.suffix && q[CRC_LEN..] == z;
      CrcParseHex(g.suffix);
      if t.mode == Absent {
        HexHasNoSlash(g.suffix);
        ReaderSkips(Faulty(a), g.suffix, z);
      }
    }
    r := ReaderCleared(Poll(a, q).r);
    assert [] + ReaderClient(r, z).2 == ReaderClient(r, z).2;
  }

  lemma {:induction false} ReaderReceivesAll(r: Reader, t: Tracker, gs: seq<Transmission>, tail: string)
    requires Fresh(r, t) && '/' !in tail
    requires forall i :: 0 <= i < |gs| ==> gs[i].Valid()
    ensures var (u, left, bodies) := ReaderClient(r, AllText(gs) + tail);
            left == "" && (u.tracker, bodies) == ReceiveAll(t, gs)
    decreases |gs|
  {
    hide ReaderClient, Crc, HexValue, Receive, IsHex;
    if gs == [] {
      assert AllText(gs) + tail == tail + "";
      ReaderSkips(r, tail, "");
      NothingArrived(r);
    } else {
      var g, z := gs[0], AllText(gs[1..]) + tail;
      assert AllText(gs) + tail == g.noise + ("/" + (g.body + "!" + (g.suffix + z)));
      ReaderSkips(r, g.noise, "/" + (g.body + "!" + (g.suffix + z)));
      ReaderOpens(r, t, g.body + "!" + (g.suffix + z));
      ReaderReadsBody(t, "", g.body, g.suffix + z);
      assert "" + g.body == g.body;
      var r' := ReaderSuffix(g, t, z);
      ReaderReceivesAll(r', Receive(t, g).0, gs[1..], tail);
    }
  }

  // --------------------------------------------------------- the equivalence

  /**
   However the bytes of a series of telegrams arrive, both readers deliver the
   bodies that a receiver of whole telegrams delivers, in the same order, and
   reach its CRC mode and its count of CRC errors.
   */
  lemma {:induction false} ReadersAgree(capacity: nat, gs: seq<Transmission>, tail: string, chunks: seq<string>, chunks': seq<string>)
    requires forall i :: 0 <= i < |gs| ==> gs[i].Valid() && Fits(capacity, gs[i].body)
    requires '/' !in tail && Joined(chunks) == Joined(chunks') == AllText(gs) + tail
    ensures var f := FixedChunks(capacity, Fixed(true, false, false, Idle(NEW_TRACKER)), chunks);
            var r := ReaderChunks(Reader(WaitingReader, false, false, "", 0, NEW_TRACKER, false), chunks');
            && (f.0.acc.tracker, f.1) == ReceiveAll(NEW_TRACKER, gs)
            && (r.0.tracker, r.2) == ReceiveAll(NEW_TRACKER, gs)
            && r.1 == ""
  {
    hide FixedChunks, ReaderChunks, ReaderClient, Collect, ReceiveAll, Fits, Joined;
    var f := Fixed(true, false, false, Idle(NEW_TRACKER));
    var r := Reader(WaitingReader, false, false, "", 0, NEW_TRACKER, false);
    ChunksCollect(capacity, f, chunks);
    CollectAll(capacity, f.acc, gs, tail);
    ChunksAsOne(r, chunks');
    ReaderReceivesAll(r, NEW_TRACKER, gs, tail);
  }

  // -------------------------------------------------- from bytes to fields

  /** One call of loop() stops at the first telegram that completes. */
  lemma {:induction false} LoopDeliversFirst(capacity: nat, f: Fixed, q: string)
    requires Ready(f)
    ensures var bodies := Collect(capacity, f.acc, q).1;
            var (g, _, result) := FixedLoop(capacity, f, q);
            && result == g.available == (bodies != [])
            && (bodies != [] ==> g.acc.body == bodies[0])
    decreases |q|
  {
    hide Step, Idle, Collect;
    if q == "" {
      NothingCollected(capacity, f.acc);
    } else {
      var (acc, r) := Step(capacity, true, f.acc, q[0]);
      assert q == [q[0]] + q[1..];
      CollectOne(capacity, f.acc, q[0]);
      CollectAppend(capacity, f.acc, [q[0]], q[1..]);
      if r != Complete {
        LoopDeliversFirst(capacity, f.(acc := acc), q[1..]);
        assert [] + Collect(capacity, acc, q[1..]).1 == Collect(capacity, acc, q[1..]).1;
      }
    }
  }

  lemma {:induction false} NothingCollected(capacity: nat, a: Acc)
    ensures Collect(capacity, a, "") == (a, [])
  {}

  /**
   End to end: when a telegram that the mode accepts arrives at a waiting
   reader, loop() makes it available, and parsing it into fresh single-line
   fields leaves a field present exactly when one of the data lines of its
   body is complete for the field, with the value of the first such line.
   */
  lemma {:induction false} FromBytesToFields(capacity: nat, f: Fixed, g: Transmission, more: string, fields: seq<Field>, d: Data, i: nat)
    requires Ready(f) && f.acc.state == WaitingState
    requires g.Valid() && Fits(capacity, g.body) && Receive(f.acc.tracker, g).1
    requires SingleLineFields(fields) && DistinctIds(fields) && Sized(fields, d) && i < |fields|
    requires fields[i].id != IDENTIFICATION && !d.present[i] && d.values[i] == BLANK
    ensures var (h, _, result) := FixedLoop(capacity, f, g.Text() + more);
            var after := Harvested(fields, d, h.acc.body, false).data;
            var lines, field := DataLines(g.body), fields[i];
            && result && h.available && h.acc.body == g.body
            && (after.present[i] <==> exists k :: 0 <= k < |lines| && CompleteLine(field, lines[k]))
            && (forall k :: 0 <= k < |lines| && CompleteLine(field, lines[k]) && (forall j :: 0 <= j < k ==> !CompleteLine(field, lines[j]))
                  ==> after.values[i] == LineValue(field, lines[k]))
  {
    hide Step, Idle, Collect, FixedLoop, Receive, Fits, CompleteLine, LineValue, Harvested, SingleLineFields, DataLines;
    CollectTelegram(capacity, f.acc, g);
    CollectAppend(capacity, f.acc, g.Text(), more);
    LoopDeliversFirst(capacity, f, g.Text() + more);
    FirstCompleteLineWins(fields, d, g.body, i);
  }

  /**
   Down to the number: when the first line of the body that is complete for a
   fixed-point field is a printed id with a printed value, in the unit or in
   milli-units, that value ends up in the field.
   */
  lemma {:induction false} FromBytesToNumber(capacity: nat, f: Fixed, g: Transmission, more: string, fields: seq<Field>, d: Data, i: nat,
                          k: nat, vs: seq<nat>, unit: string, n: nat)
    requires Ready(f) && f.acc.state == WaitingState
    requires g.Valid() && Fits(capacity, g.body) && Receive(f.acc.tracker, g).1
    requires SingleLineFields(fields) && DistinctIds(fields) && Sized(fields, d) && i < |fields|
    requires fields[i].id != IDENTIFICATION && !d.present[i] && d.values[i] == BLANK
    requires n < U32 && unit != "" && All(NotClose, unit) && 1 <= |vs| <= 6 && forall j :: 0 <= j < |vs| ==> vs[j] <= 255
    requires fields[i] == Field(Normalise(Padded(vs)), FixedShape(unit))
    requires var lines := DataLines(g.body);
             && k < |lines| && (lines[k] == PrintId(vs) + PrintFixed(n, unit) || lines[k] == PrintId(vs) + PrintMilli(n, unit))
             && forall j :: 0 <= j < k ==> !CompleteLine(fields[i], lines[j])
    ensures var (h, _, result) := FixedLoop(capacity, f, g.Text() + more);
            var after := Harvested(fields, d, h.acc.body, false).data;
            result && h.available && after.present[i] && after.values[i].number == n
  {
    hide Step, Idle, Collect, FixedLoop, Receive, Fits, CompleteLine, LineValue, Harvested, SingleLineFields, DataLines;
    FixedLineStores(fields[i], vs, unit, n);
    FromBytesToFields(capacity, f, g, more, fields, d, i);
  }

  // -------------------------------------------------- disabling and enabling

  /** Whatever a reader has read of a telegram is gone after disable() and enable(): the next telegram arrives whole. */
  lemma {:induction false} FixedRestart(capacity: nat, f: Fixed, g: Transmission, more: string)
    requires !f.available && g.Valid() && Fits(capacity, g.body) && Receive(f.acc.tracker, g).1
    ensures var restarted := FixedEnabled(FixedDisabled(f), false);
            var (h, _, result) := FixedLoop(capacity, restarted, g.Text() + more);
            result && h.available && h.acc.body == g.body
  {
    hide Step, Collect, FixedLoop, Receive, Fits;
    var restarted := FixedEnabled(FixedDisabled(f), false);
    CollectTelegram(capacity, restarted.acc, g);
    CollectAppend(capacity, restarted.acc, g.Text(), more);
    LoopDeliversFirst(capacity, restarted, g.Text() + more);
  }

  lemma StringRestart(r: Reader, g: Transmission)
    requires !r.available && g.Valid() && Receive(r.tracker, g).1
    ensures ReaderClient(ReaderEnabled(ReaderDisabled(r), false), g.Text()).2 == [g.body]
  {
    hide ReaderClient, Receive;
    var restarted := ReaderEnabled(ReaderDisabled(r), false);
    assert AllText([g]) == g.Text() && AllText([g]) + "" == g.Text() by { assert [g][1..] == []; assert g.Text() + "" == g.Text(); }
    ReaderReceivesAll(restarted, r.tracker, [g], "");
    assert [g][1..] == [];
    assert ReceiveAll(Receive(r.tracker, g).0, []) == (Receive(r.tracker, g).0, []);
    assert [g.body] + [] == [g.body];
  }

  // ------------------------------------------ what loop() and available() say

  /** A telegram that has not been taken stays as it is until another '/' arrives ... */
  lemma {:induction false} KeptUntilSlash(capacity: nat, f: Fixed, q: string)
    requires f.available && f.acc.state == WaitingState && '/' !in q
    ensures FixedLoop(capacity, f, q) == (f, "", true)
    decreases |q|
  {
    hide Push, Crc, CrcParse;
    if q != "" {
      KeptUntilSlash(capacity, f, q[1..]);
    }
  }

  /** ... which empties the buffer while the reader still calls a telegram available. */
  lemma {:induction false} LostExample(capacity: nat, f: Fixed)
    requires f.enabled && f.available && f.acc.state == WaitingState
    ensures var (g, _, result) := FixedLoop(capacity, f, "/");
            result && g.available && g.acc.state == ReadingState && g.acc.body == ""
  {
    hide Push;
    var (g, _) := Step(capacity, true, f.acc, '/');
    assert "/"[0] == '/' && "/"[1..] == "";
    assert FixedLoop(capacity, f.(acc := g), "") == (f.(acc := g), "", true);
  }

  /** The reader calls a telegram available while its buffer holds something else. */
  predicate Lost(f: Fixed) {
    f.available && f.acc.state != WaitingState
  }

  /** One call of loop() loses a telegram exactly when its bytes lead into another one and to no verdict on that. */
  lemma {:induction false} LostExactly(capacity: nat, f: Fixed, q: string)
    ensures Lost(FixedLoop(capacity, f, q).0) <==>
              f.available && if !f.enabled then f.acc.state != WaitingState
                             else FirstVerdict(capacity, f.acc, q) == None && Feed(capacity, f.acc, q).0.state != WaitingState
    decreases |q|
  {
    hide Step, Feed, FirstVerdict;
    if !f.enabled {
      DisabledDropsBytes(capacity, f, q);
    } else if q == "" {
      NothingFed(capacity, f.acc);
    } else {
      var (acc, r) := Step(capacity, true, f.acc, q[0]);
      assert q == [q[0]] + q[1..];
      FeedOne(capacity, f.acc, q[0]);
      FeedAppend(capacity, f.acc, [q[0]], q[1..]);
      CompleteWaits(capacity, f.acc, q[0]);
      LostExactly(capacity, f.(acc := acc), q[1..]);
      LostExactly(capacity, f.(acc := acc, available := false), q[1..]);
    }
  }

  lemma CompleteWaits(capacity: nat, a: Acc, c: char)
    ensures var (b, r) := Step(capacity, true, a, c); r == Result.Complete ==> b.state == WaitingState
  {
    hide Push, CrcParse, IsHex;
  }

  /** A text from '/' on that is the beginning of a telegram: its body fits and there is no verdict on it yet. */
  predicate Unfinished(text: string, mode: CrcMode, capacity: nat)
    requires text != ""
  {
    Fits(capacity, text[1..Skip(NotBang, text, 1)]) && Verdict(text, mode, capacity) == Pending
  }

  lemma UnfinishedBody(body: string, mode: CrcMode, capacity: nat)
    requires All(NotBang, body)
    ensures Unfinished("/" + body, mode, capacity) <==> Fits(capacity, body)
  {
    hide Verdict;
    var t := "/" + body;
    VerdictInBody(body, mode, capacity);
    assert forall i :: 1 <= i < |t| ==> t[i] == body[i - 1];
    SkipIs(NotBang, t, 1, |t|);
    assert t[1..|t|] == body;
  }

  lemma UnfinishedSuffix(body: string, suffix: string, mode: CrcMode, capacity: nat)
    requires All(NotBang, body)
    ensures Unfinished("/" + body + "!" + suffix, mode, capacity) <==>
              Fits(capacity, body) && (suffix == "" || (mode != Absent && |suffix| < CRC_LEN && All(IsHex, suffix)))
  {
    hide Verdict, IsHex, HexValue, Crc;
    var t, n := "/" + body + "!" + suffix, |body| + 1;
    VerdictInSuffix(body, suffix, mode, capacity);
    if |suffix| == 1 {
      EolIsNotHex(suffix[0]);
    }
    assert forall i :: 1 <= i < n ==> t[i] == body[i - 1];
    assert t[n] == '!';
    SkipIs(NotBang, t, 1, n);
    assert t[1..n] == body;
  }

  lemma UnfinishedBefore(text: string, c: char, mode: CrcMode, capacity: nat)
    requires text != "" && text[0] == '/' && Unfinished(text + [c], mode, capacity)
    ensures Unfinished(text, mode, capacity)
  {
    hide Unfinished, IsHex;
    var body, suffix := Parted(text);
    if suffix.Some? {
      assert text + [c] == "/" + body + "!" + (suffix.value + [c]);
      UnfinishedSuffix(body, suffix.value + [c], mode, capacity);
      UnfinishedSuffix(body, suffix.value, mode, capacity);
      HexSuffix(suffix.value, c);
    } else if c == '!' {
      assert text + [c] == "/" + body + "!" + "";
      UnfinishedSuffix(body, "", mode, capacity);
      UnfinishedBody(body, mode, capacity);
    } else {
      assert text + [c] == "/" + (body + [c]);
      UnfinishedBody(body + [c], mode, capacity);
      UnfinishedBody(body, mode, capacity);
    }
  }

  /** While a telegram is unfinished, the next byte leaves it so exactly when it leads to no verdict. */
  lemma UnfinishedAfter(capacity: nat, a: Acc, text: string, c: char)
    requires Inv(capacity, a) && text != "" && Tracks(a, Some(text))
    ensures var (b, r) := Step(capacity, true, a, c);
            && (r == Pending <==> Unfinished(text + [c], a.tracker.mode, capacity))
            && (r == Pending ==> Tracks(b, Some(text + [c])) && b.tracker == a.tracker && Inv(capacity, b))
  {
    hide Unfinished, IsHex, Step, Verdict, Inv, Crc;
    var mode := a.tracker.mode;
    StepInv(capacity, a, c);
    StepVerdict(capacity, a, Some(text), c);
    BodyFits(capacity, a);
    PendingKeepsTracker(capacity, a, c);
    match a.state {
      case WaitingState =>
      case ReadingState =>
        if c == '!' {
          assert text + [c] == "/" + a.body + "!" + "";
          UnfinishedSuffix(a.body, "", mode, capacity);
          VerdictInSuffix(a.body, "", mode, capacity);
        } else {
          assert text + [c] == "/" + (a.body + [c]);
          UnfinishedBody(a.body + [c], mode, capacity);
          VerdictInBody(a.body + [c], mode, capacity);
        }
      case ChecksumState =>
        assert text + [c] == "/" + a.body + "!" + (a.suffix + [c]);
        UnfinishedSuffix(a.body, a.suffix + [c], mode, capacity);
        VerdictInSuffix(a.body, a.suffix + [c], mode, capacity);
        EolIsNotHex(c);
        HexSuffix(a.suffix, c);
    }
  }

  lemma BodyFits(capacity: nat, a: Acc)
    requires Inv(capacity, a)
    ensures Fits(capacity, a.body)
  {
    hide Crc, IsHex;
  }

  lemma PendingKeepsTracker(capacity: nat, a: Acc, c: char)
    ensures var (b, r) := Step(capacity, true, a, c); r == Pending ==> b.tracker == a.tracker
  {
    hide Push, CrcParse, IsHex;
  }

  lemma {:induction false} UnfinishedFed(capacity: nat, a: Acc, s: string)
    requires Inv(capacity, a) && a.state == WaitingState && s != "" && s[0] == '/'
    ensures FirstVerdict(capacity, a, s) == None <==> Unfinished(s, a.tracker.mode, capacity)
    ensures var b := Feed(capacity, a, s).0;
            FirstVerdict(capacity, a, s) == None ==> Tracks(b, Some(s)) && b.tracker == a.tracker && Inv(capacity, b)
  {
    hide Step, Inv, Unfinished, First, Feed, Tracks;
    var u, c := s[..|s| - 1], s[|s| - 1];
    assert s == u + [c];
    if u == "" {
      assert s == [c] == "/" + "";
      FeedOne(capacity, a, c);
      Opens(capacity, a);
      UnfinishedBody("", a.tracker.mode, capacity);
    } else {
      UnfinishedFed(capacity, a, u);
      FeedAppend(capacity, a, u, [c]);
      var b := Feed(capacity, a, u).0;
      FeedOne(capacity, b, c);
      if FirstVerdict(capacity, a, u) == None {
        UnfinishedAfter(capacity, b, u, c);
      } else if Unfinished(s, a.tracker.mode, capacity) {
        UnfinishedBefore(u, c, a.tracker.mode, capacity);
      }
    }
  }

  lemma Opens(capacity: nat, a: Acc)
    requires Inv(capacity, a) && a.state == WaitingState
    ensures var (b, r) := Step(capacity, true, a, '/');
            r == Pending && Tracks(b, Some("/")) && b.tracker == a.tracker && Inv(capacity, b)
  {
    StepInv(capacity, a, '/');
    hide Push, Crc, Inv;
    assert "/" + "" == "/";
  }

  /**
   A telegram that has not been taken is lost exactly when another '/'
   arrives and the text from the first one on is an unfinished telegram.
   */
  lemma {:induction false} LostAtSlash(capacity: nat, f: Fixed, q: string)
    requires f.enabled && f.available && f.acc.state == WaitingState && Inv(capacity, f.acc)
    ensures var k := Skip(NotSlash, q, 0);
            Lost(FixedLoop(capacity, f, q).0) <==> k < |q| && Unfinished(q[k..], f.acc.tracker.mode, capacity)
  {
    hide Step, Inv, Unfinished, First, Feed, FixedLoop, FirstVerdict;
    var k := Skip(NotSlash, q, 0);
    LostExactly(capacity, f, q);
    assert q == q[..k] + q[k..];
    WaitingSkips(capacity, f.acc, q[..k]);
    FeedAppend(capacity, f.acc, q[..k], q[k..]);
    if k < |q| {
      UnfinishedFed(capacity, f.acc, q[k..]);
    } else {
      NothingFed(capacity, f.acc);
    }
  }

  /** What loop() of the fixed reader returns is what available() says afterwards. */
  lemma {:induction false} FixedLoopSaysAvailable(capacity: nat, f: Fixed, q: string)
    ensures FixedLoop(capacity, f, q).2 == FixedLoop(capacity, f, q).0.available
    decreases |q|
  {
    hide Step;
    if q != "" {
      var acc := Step(capacity, true, f.acc, q[0]).0;
      FixedLoopSaysAvailable(capacity, f, q[1..]);
      FixedLoopSaysAvailable(capacity, f.(acc := acc), q[1..]);
      FixedLoopSaysAvailable(capacity, f.(acc := acc, available := false), q[1..]);
    }
  }

  /** The text after the '!' of the telegram that is being read, or of the next one. */
  function SuffixAhead(state: ReaderState, q: string): Option<string>
    decreases |q|
  {
    match state
    case DisabledReader => None
    case ChecksumReader => Some(q)
    case ReadingReader =>
      var k := Skip(NotBang, q, 0);
      if k == |q| then None else Some(q[k + 1..])
    case WaitingReader =>
      var k := Skip(NotSlash, q, 0);
      if k == |q| then None else SuffixAhead(ReadingReader, q[k + 1..])
  }

  /** The CRC up to that '!', in a mode in which it is computed; 0 when there is none. */
  function CrcAhead(state: ReaderState, crc: bv16, q: string): bv16
    decreases |q|
  {
    match state
    case DisabledReader => 0
    case ChecksumReader => crc
    case ReadingReader =>
      var k := Skip(NotBang, q, 0);
      if k == |q| then 0 else Fold(crc, q[..k + 1])
    case WaitingReader =>
      var k := Skip(NotSlash, q, 0);
      if k == |q| then 0 else CrcAhead(ReadingReader, Crc("/"), q[k + 1..])
  }

  /** A line end where a checksum is due, or four characters that are not the checksum. */
  predicate Refused(mode: CrcMode, z: string, crc: bv16) {
    && z != ""
    && if IsEol(z[0]) then mode == Present
       else mode != Absent && IsHex(z[0]) && |z| >= CRC_LEN && !Denotes(z[..CRC_LEN], crc)
  }

  /** A suffix that cannot be classified before more characters are there. */
  predicate TooShort(mode: CrcMode, z: string) {
    z == "" || (mode != Absent && IsHex(z[0]) && |z| < CRC_LEN)
  }

  /** The buffer with the characters up to the next '!'; empty when there is none. */
  function UpToBang(buffer: string, q: string): string {
    var k := Skip(NotBang, q, 0);
    if k == |q| then "" else buffer + q[..k]
  }

  /** The same for the telegram after the next '/'. */
  function NextBody(buffer: string, q: string): string {
    var p := Skip(NotSlash, q, 0);
    if p == |q| then "" else UpToBang(buffer, q[p + 1..])
  }

  /** What the buffer holds at that '!'; a telegram that was available is cleared by the '/' of the next one. */
  function BodyAhead(r: Reader, q: string): string {
    match r.state
    case DisabledReader => ""
    case ChecksumReader => r.buffer
    case ReadingReader => UpToBang(r.buffer, q)
    case WaitingReader => NextBody(if r.available then "" else r.buffer, q)
  }

  /** A line end where no checksum is due, or four characters that are the checksum. */
  predicate Taken(mode: CrcMode, z: string, crc: bv16) {
    && z != ""
    && if IsEol(z[0]) then mode != Present
       else mode != Absent && IsHex(z[0]) && |z| >= CRC_LEN && Denotes(z[..CRC_LEN], crc)
  }

  /** Neither a line end nor a digit, or anything but a line end where no checksum is due. */
  predicate BadStart(mode: CrcMode, z: string) {
    z != "" && !IsEol(z[0]) && (mode == Absent || !IsHex(z[0]))
  }

  /** How many characters a suffix that is classified takes up. */
  function Used(z: string): (n: nat)
    requires z != ""
  {
    if IsEol(z[0]) then 1 else CRC_LEN
  }

  /** A telegram that was available and that no '/' clears. */
  predicate Untaken(r: Reader, q: string) {
    r.available && !(r.state == WaitingReader && '/' in q)
  }

  lemma {:induction false} SkipTail(p: char -> bool, q: string)
    requires q != "" && p(q[0])
    ensures Skip(p, q, 0) == Skip(p, q[1..], 0) + 1
  {
    var n := Skip(p, q[1..], 0);
    assert forall i :: 1 <= i < |q| ==> q[i] == q[1..][i - 1];
    SkipIs(p, q, 0, n + 1);
  }

  lemma {:induction false} AheadStep(r: Reader, q: string)
    requires q != "" && r.state != ChecksumReader
    ensures var s := ReadByte(r, q[0]);
            && s.tracker == r.tracker
            && SuffixAhead(s.state, q[1..]) == SuffixAhead(r.state, q)
            && (r.tracker.mode != Absent ==> CrcAhead(s.state, s.crc, q[1..]) == CrcAhead(r.state, r.crc, q))
            && Untaken(s, q[1..]) == Untaken(r, q)
            && BodyAhead(s, q[1..]) == BodyAhead(r, q)
  {
    hide Push, Crc, Fold, SuffixAhead, CrcAhead, BodyAhead;
    BodyStep(r, q);
    assert q == [q[0]] + q[1..];
    match r.state {
      case DisabledReader =>
        NothingAhead(r.crc, q);
        NothingAhead(r.crc, q[1..]);
      case ChecksumReader =>
      case ReadingReader => AheadInBody(r.crc, q);
      case WaitingReader =>
        AheadWaiting(r.crc, q);
        CrcOfSlash();
    }
  }

  lemma {:induction false} UpToBangStep(buffer: string, q: string)
    requires q != ""
    ensures UpToBang(buffer, q) == if q[0] == '!' then buffer else UpToBang(buffer + [q[0]], q[1..])
  {
    if NotBang(q[0]) {
      SkipTail(NotBang, q);
      var k := Skip(NotBang, q[1..], 0);
      if k < |q[1..]| {
        assert q[..k + 1] == [q[0]] + q[1..][..k];
        Associative(buffer, [q[0]], q[1..][..k]);
      }
    } else {
      SkipIs(NotBang, q, 0, 0);
      assert buffer + q[..0] == buffer;
    }
  }

  lemma {:induction false} NextBodyStep(buffer: string, q: string)
    requires q != ""
    ensures NextBody(buffer, q) == if q[0] == '/' then UpToBang(buffer, q[1..]) else NextBody(buffer, q[1..])
  {
    hide UpToBang;
    if NotSlash(q[0]) {
      SkipTail(NotSlash, q);
      var p := Skip(NotSlash, q[1..], 0);
      assert p < |q[1..]| ==> q[1..][p + 1..] == q[p + 2..];
    } else {
      SkipIs(NotSlash, q, 0, 0);
    }
  }

  lemma BodyStep(r: Reader, q: string)
    requires q != "" && r.state != ChecksumReader
    ensures BodyAhead(ReadByte(r, q[0]), q[1..]) == BodyAhead(r, q)
  {
    hide Push, UpToBang, NextBody;
    UpToBangStep(r.buffer, q);
    NextBodyStep(if r.available then "" else r.buffer, q);
  }

  lemma {:induction false} NothingAhead(crc: bv16, q: string)
    ensures SuffixAhead(DisabledReader, q) == None && CrcAhead(DisabledReader, crc, q) == 0
  {}

  lemma {:induction false} AheadInBody(crc: bv16, q: string)
    requires q != ""
    ensures var state := if q[0] == '!' then ChecksumReader else ReadingReader;
            && SuffixAhead(ReadingReader, q) == SuffixAhead(state, q[1..])
            && CrcAhead(state, Push(crc, q[0]), q[1..]) == CrcAhead(ReadingReader, crc, q)
  {
    hide Push, Fold;
    var k := Skip(NotBang, q, 0);
    if NotBang(q[0]) {
      SkipTail(NotBang, q);
      if k < |q| {
        CrcStep(crc, q, k);
        assert q[1..][k..] == q[k + 1..];
      }
    } else {
      SkipIs(NotBang, q, 0, 0);
      CrcStep(crc, q, 0);
      FoldNothing(Push(crc, q[0]));
    }
  }

  lemma {:induction false} AheadWaiting(crc: bv16, q: string)
    requires q != ""
    ensures var state := if q[0] == '/' then ReadingReader else WaitingReader;
            && SuffixAhead(WaitingReader, q) == SuffixAhead(state, q[1..])
            && CrcAhead(WaitingReader, crc, q) == CrcAhead(state, if q[0] == '/' then Crc("/") else crc, q[1..])
  {
    hide Crc, Fold;
    var k := Skip(NotSlash, q, 0);
    if NotSlash(q[0]) {
      SkipTail(NotSlash, q);
      assert k < |q| ==> q[1..][k..] == q[k + 1..];
    } else {
      SkipIs(NotSlash, q, 0, 0);
    }
  }

  lemma {:induction false} FoldNothing(crc: bv16)
    ensures Fold(crc, "") == crc
  {}

  lemma {:induction false} CrcStep(crc: bv16, q: string, k: nat)
    requires k < |q|
    ensures Fold(crc, q[..k + 1]) == Fold(Push(crc, q[0]), q[1..][..k])
  {
    hide Push, Fold;
    assert q[..k + 1] == [q[0]] + q[1..][..k];
    FoldAppend(crc, [q[0]], q[1..][..k]);
    FoldByte(crc, q[0]);
  }

  lemma {:induction false} FoldByte(crc: bv16, c: char)
    ensures Fold(crc, [c]) == Push(crc, c)
  {
    hide Next, Octet;
    FoldPush(crc, "", c);
    assert "" + [c] == [c];
  }

  /**
   What a call of P1Reader.loop() leaves, read off the input. Without a suffix
   ahead, or with one that is too short, it waits. A suffix that is taken makes
   exactly the body before it available, with one more vote. Every other suffix
   counts one error and empties the buffer; it is used up only when it was
   refused as a whole.
   */
  predicate Judged(r: Reader, q: string, s: Reader, left: string, result: bool) {
    var mode, crc := r.tracker.mode, CrcAhead(r.state, r.crc, q);
    match SuffixAhead(r.state, q)
    case None => !result && left == "" && s.tracker == r.tracker && s.available == Untaken(r, q)
    case Some(z) =>
      if TooShort(mode, z) then
        && !result && left == z && s.tracker == r.tracker && s.available == Untaken(r, q)
        && s.state == ChecksumReader && s.buffer == BodyAhead(r, q)
      else if Taken(mode, z, crc) then
        && result && s.available && s.buffer == BodyAhead(r, q)
        && s.tracker == r.tracker.Observe(!IsEol(z[0])) && s.lastCrcPresent == !IsEol(z[0])
        && (s.lastCrcPresent ==> s.crc == crc)
        && (if r.once then s.state == DisabledReader && left == "" else s.state == WaitingReader && left == z[Used(z)..])
      else
        && (Refused(mode, z, crc) || BadStart(mode, z)) && result == Refused(mode, z, crc)
        && !s.available && s.buffer == "" && s.state == WaitingReader && !s.lastCrcPresent
        && s.tracker == r.tracker.RecordError()
        && left == if Refused(mode, z, crc) then z[Used(z)..] else z
  }

  lemma {:induction false} LoopJudges(r: Reader, q: string)
    ensures var (s, left, result) := ReaderLoop(r, q); Judged(r, q, s, left, result)
    decreases |q|
  {
    hide ReadByte, TooShort, Untaken, SuffixAhead, CrcAhead, BodyAhead, Checks, Denotes, IsHex, Tracker.Observe, Tracker.RecordError;
    match Poll(r, q) {
      case Stop(_, _, _) => StopJudges(r, q);
      case Go(s, rest) =>
        AheadStep(r, q);
        OnceStays(r, q[0]);
        LoopJudges(s, rest);
    }
  }

  lemma OnceStays(r: Reader, c: char)
    ensures ReadByte(r, c).once == r.once
  {
    hide Push;
  }

  lemma StopJudges(r: Reader, q: string)
    requires Poll(r, q).Stop?
    ensures Judged(r, q, Poll(r, q).r, Poll(r, q).q, Poll(r, q).result)
  {
    hide Push, Crc, Fold, CrcParse, IsHex, Denotes, Tracker.Observe, Tracker.RecordError;
    if r.state == ChecksumReader && q != "" {
      EolIsNotHex(q[0]);
      if |q| >= CRC_LEN {
        ChecksDenotes(r, q[..CRC_LEN]);
      }
    }
  }

  lemma ChecksDenotes(r: Reader, s: string)
    requires |s| == CRC_LEN
    ensures Checks(r, s) <==> Denotes(s, r.crc)
  {
    hide CrcParse, SignedValue, Lead, IsHex;
    CrcParseAccepts(s);
  }

  /**
   loop() makes a telegram available exactly when its suffix is a line end
   where none is due otherwise, or four characters that start with a digit and
   denote its CRC; it counts an error, waiting with an empty buffer, exactly
   when the suffix is refused or starts with anything else.
   */
  lemma {:induction false} LoopDelivers(r: Reader, q: string)
    ensures var (s, left, result) := ReaderLoop(r, q);
            var mode, z, crc := r.tracker.mode, SuffixAhead(r.state, q), CrcAhead(r.state, r.crc, q);
            var counted := s.tracker.crcErrors == (r.tracker.crcErrors + 1) % U32 && s.buffer == "" && s.state == WaitingReader;
            && (result && s.available <==> z.Some? && Taken(mode, z.value, crc))
            && (counted <==> z.Some? && (Refused(mode, z.value, crc) || BadStart(mode, z.value)))
            && (!counted ==> s.tracker.crcErrors == r.tracker.crcErrors)
  {
    hide ReaderLoop, Untaken, SuffixAhead, CrcAhead, BodyAhead, Denotes, IsHex;
    LoopJudges(r, q);
    if SuffixAhead(r.state, q).Some? {
      OneOfFour(r.tracker.mode, SuffixAhead(r.state, q).value, CrcAhead(r.state, r.crc, q));
    }
  }

  lemma OneOfFour(mode: CrcMode, z: string, crc: bv16)
    ensures TooShort(mode, z) ==> !Taken(mode, z, crc) && !Refused(mode, z, crc) && !BadStart(mode, z)
    ensures Taken(mode, z, crc) ==> !Refused(mode, z, crc) && !BadStart(mode, z)
    ensures Refused(mode, z, crc) ==> !BadStart(mode, z)
  {
    hide IsHex, Denotes;
    if z != "" {
      EolIsNotHex(z[0]);
    }
  }

  /**
   P1Reader.loop() is not just like available(). It returns true with nothing
   available exactly when the suffix ahead is refused, and false with a
   telegram available exactly when one has not been taken, no '/' clears it
   and no suffix can be classified; in all other cases the two agree.
   */
  lemma {:induction false} LoopAgainstAvailable(r: Reader, q: string)
    ensures var (s, _, result) := ReaderLoop(r, q);
            var mode, z, crc := r.tracker.mode, SuffixAhead(r.state, q), CrcAhead(r.state, r.crc, q);
            && (result && !s.available <==> z.Some? && Refused(mode, z.value, crc))
            && (!result && s.available <==> Untaken(r, q) && (z == None || TooShort(mode, z.value)))
  {
    hide ReaderLoop, Untaken, SuffixAhead, CrcAhead, BodyAhead, Denotes, IsHex;
    LoopJudges(r, q);
    if SuffixAhead(r.state, q).Some? {
      OneOfFour(r.tracker.mode, SuffixAhead(r.state, q).value, CrcAhead(r.state, r.crc, q));
    }
  }

  /** A return of true says that a suffix was classified: either a telegram is available or one more error is counted. */
  lemma {:induction false} TrueMeansClassified(r: Reader, q: string)
    ensures var (s, _, result) := ReaderLoop(r, q);
            result ==> (s.available <==> s.tracker.crcErrors == r.tracker.crcErrors)
    decreases |q|
  {
    hide Checks, IsHex, Push;
    match Poll(r, q) {
      case Stop(_, _, _) =>
      case Go(s, rest) => TrueMeansClassified(s, rest);
    }
  }

  /** A telegram without the checksum that the mode demands: true is returned and nothing is available. */
  lemma {:induction false} TrueWithoutTelegram(r: Reader)
    requires r.state == ChecksumReader && r.tracker.mode == Present
    ensures ReaderLoop(r, "\r").2 && !ReaderLoop(r, "\r").0.available
  {
    hide Push;
    assert "\r"[0] == '\r';
  }

  /** A telegram that is there, and a second call with nothing to read: false is returned. */
  lemma FalseWithTelegram()
    ensures var r := Reader(WaitingReader, false, false, "", 0, NEW_TRACKER, false);
            var (s, left, result) := ReaderLoop(r, "/a!\r");
            && result && left == "" && s.available && s.buffer == "a"
            && ReaderLoop(s, "") == (s, "", false)
  {
    hide Push;
    var r := Reader(WaitingReader, false, false, "", 0, NEW_TRACKER, false);
    assert "/a!\r"[1..] == "a!\r" && "a!\r"[1..] == "!\r" && "!\r"[1..] == "\r" && "\r"[1..] == "";
    var r1 := ReadByte(r, '/');
    var r2 := ReadByte(r1, 'a');
    var r3 := ReadByte(r2, '!');
    assert ReaderLoop(r, "/a!\r") == ReaderLoop(r1, "a!\r");
    assert ReaderLoop(r1, "a!\r") == ReaderLoop(r2, "!\r");
    assert ReaderLoop(r2, "!\r") == ReaderLoop(r3, "\r");
    assert "" + ['a'] == "a";
  }

  lemma OnceKeeps(capacity: nat, f: Fixed, q: string, later: string)
    requires f.enabled && f.once && !f.available && FixedLoop(capacity, f, q).0.available
    ensures var (g, left, result) := FixedLoop(capacity, f, q);
            result && left == "" && !g.enabled && FixedLoop(capacity, g, later) == (g, "", true)
    decreases |q|
  {
    hide Step;
    if q != "" {
      var (acc, r) := Step(capacity, true, f.acc, q[0]);
      if r == Result.Complete {
        DisabledDropsBytes(capacity, FixedLoop(capacity, f, q).0, later);
      } else {
        OnceKeeps(capacity, f.(acc := acc), q[1..], later);
      }
    }
  }

  /**
   A reader that was enabled for one telegram keeps it and drops every byte
   that arrives afterwards.
   */
  lemma OnceKeepsTelegram(capacity: nat, f: Fixed, q: string, later: string)
    requires !f.available
    ensures var (g, left, result) := FixedLoop(capacity, FixedEnabled(f, true), q);
            g.available ==> result && left == "" && !g.enabled && FixedLoop(capacity, g, later) == (g, "", true)
  {
    hide FixedLoop;
    if FixedLoop(capacity, FixedEnabled(f, true), q).0.available {
      OnceKeeps(capacity, FixedEnabled(f, true), q, later);
    }
  }

  lemma {:induction false} DisabledDropsBytes(capacity: nat, f: Fixed, q: string)
    requires !f.enabled
    ensures FixedLoop(capacity, f, q) == (f, "", f.available)
    decreases |q|
  {
    hide Step;
    if q != "" {
      DisabledDropsBytes(capacity, f, q[1..]);
    }
  }

  /** So does the string reader. */
  lemma OnceKeepsTelegramToo(r: Reader, q: string, later: string)
    requires !r.available
    ensures var (s, left, result) := ReaderLoop(ReaderEnabled(r, true), q);
            s.available ==> result && left == "" && s.state == DisabledReader && ReaderLoop(s, later) == (s, "", false)
  {
    hide ReaderLoop;
    if ReaderLoop(ReaderEnabled(r, true), q).0.available {
      OnceKeepsToo(ReaderEnabled(r, true), q, later);
    }
  }

  lemma OnceKeepsToo(r: Reader, q: string, later: string)
    requires r.once && !r.available && ReaderLoop(r, q).0.available
    ensures var (s, left, result) := ReaderLoop(r, q);
            result && left == "" && s.state == DisabledReader && ReaderLoop(s, later) == (s, "", false)
    decreases |q|
  {
    hide Checks, IsHex, Push;
    match Poll(r, q) {
      case Stop(s, _, _) => DisabledReaderDropsBytes(s, later);
      case Go(s, rest) => OnceKeepsToo(s, rest, later);
    }
  }

  lemma {:induction false} DisabledReaderDropsBytes(r: Reader, q: string)
    requires r.state == DisabledReader
    ensures ReaderLoop(r, q) == (r, "", false)
    decreases |q|
  {
    if q != "" {
      DisabledReaderDropsBytes(r, q[1..]);
    }
  }
}
