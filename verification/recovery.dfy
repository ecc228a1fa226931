/**
 Printing a received telegram again, resynchronisation after garbage, and
 texts on which the batch parser and the receiver part ways.
 */
module Recovery {
  import opened Crc16
  import opened Text
  import opened Checksum
  import opened Telegram
  import opened Receiver
  import opened ReceiverLaws
  import opened Agreement

  // ------------------------------------------------------------ CompleteRaw

  /** CompleteRaw: the telegram with both markers, and its CRC if it came with one. */
  function CompleteRaw(a: Acc): Option<string> {
    if a.body == "" then None
    else Some("/" + a.body + "!" + (if a.lastCrcPresent then PrintCrc(a.crc) else ""))
  }

  lemma PrintedSuffix(capacity: nat, a: Acc)
    requires Inv(capacity, a) && a.state == WaitingState && a.lastCrcPresent
    ensures var h := PrintCrc(a.crc);
            |h| == CRC_LEN && All(IsHex, h) && HexValue(h) == Crc("/" + a.body + "!")
  {
    hide Crc, HexValue, PrintCrc, CrcParse, IsHex;
    PrintParse(a.crc);
    CrcParseHex(PrintCrc(a.crc));
  }

  /**
   After every run, a waiting receiver that holds a telegram prints a text
   that the batch parser accepts, and from which a fresh receiver with room
   for it recovers the same body and the same presence of a CRC.
   */
  lemma {:induction false} PrintedTelegramIsAccepted(capacity: nat, es: seq<Event>, capacity': nat)
    requires var a := Run(capacity, true, es).0; a.state == WaitingState && a.body != "" && |a.body| < capacity'
    ensures var a := Run(capacity, true, es).0;
            var text := CompleteRaw(a).value + "\r\n";
            var b := Feed(capacity', Idle(NEW_TRACKER), text).0;
            && Judge(text).Accepted?
            && FirstVerdict(capacity', Idle(NEW_TRACKER), text) == Some(Complete)
            && b.state == WaitingState && b.body == a.body && b.lastCrcPresent == a.lastCrcPresent
            && CompleteRaw(b) == CompleteRaw(a)
  {
    hide Run, First, Feed, Crc, HexValue, IsHex, PrintCrc, CrcParse, Judge, FirstVerdict;
    RunInv(capacity, es);
    var a := Run(capacity, true, es).0;
    var h := if a.lastCrcPresent then PrintCrc(a.crc) else "";
    if a.lastCrcPresent {
      PrintedSuffix(capacity, a);
    }
    var text := CompleteRaw(a).value + "\r\n";
    assert text == "/" + a.body + "!" + h + "\r\n" == "/" + a.body + "!" + (h + "\r\n");
    Replay(capacity', NEW_TRACKER, a.body, h);
    ShortSuffixesAgree(capacity', Idle(NEW_TRACKER), a.body, h);
  }

  /** Exactly what a waiting receiver makes of a telegram whose format its mode allows. */
  lemma {:induction false} Replay(capacity: nat, t: Tracker, body: string, h: string)
    requires Fits(capacity, body)
    requires if h == "" then t.mode != Present
             else t.mode != Absent && |h| == CRC_LEN && All(IsHex, h) && HexValue(h) == Crc("/" + body + "!")
    ensures forall a: Acc :: a.state == WaitingState && a.tracker == t ==>
              && FirstVerdict(capacity, a, "/" + body + "!" + (h + "\r\n")) == Some(Complete)
              && var b := Feed(capacity, a, "/" + body + "!" + (h + "\r\n")).0;
                 && b == Acc(t.Observe(h != ""), WaitingState, body, if t.mode == Absent then 0 else Crc("/" + body + "!"), "", h != "")
  {
    hide First, Feed, Crc, HexValue, IsHex, FirstVerdict, CrcParse, Push;
    forall a: Acc | a.state == WaitingState && a.tracker == t
      ensures FirstVerdict(capacity, a, "/" + body + "!" + (h + "\r\n")) == Some(Complete)
      ensures Feed(capacity, a, "/" + body + "!" + (h + "\r\n")).0 ==
                Acc(t.Observe(h != ""), WaitingState, body, if t.mode == Absent then 0 else Crc("/" + body + "!"), "", h != "")
    {
      TelegramVerdict(capacity, a, body, h + "\r\n");
      var c := Closed(t, body);
      if h == "" {
        FeedOne(capacity, c, '\r');
        assert h + "\r\n" == ['\r'] + "\n";
        FeedAppend(capacity, c, ['\r'], "\n");
        WaitingSkips(capacity, Step(capacity, true, c, '\r').0, "\n");
      } else {
        FeedDigits(capacity, t, body, h[..3]);
        var b := c.(suffix := h[..3]);
        FeedOne(capacity, b, h[3]);
        EolIsNotHex(h[3]);
        assert h[..3] + [h[3]] == h;
        CrcParseHex(h);
        assert h + "\r\n" == h[..3] + ([h[3]] + "\r\n");
        FeedAppend(capacity, c, h[..3], [h[3]] + "\r\n");
        FeedAppend(capacity, b, [h[3]], "\r\n");
        WaitingSkips(capacity, Step(capacity, true, b, h[3]).0, "\r\n");
      }
    }
  }

  // -------------------------------------------------------- resynchronising

  /** The suffix of a telegram, with or without a CRC, up to its line end. */
  predicate IsSuffix(h: string) {
    h == "" || (|h| == CRC_LEN && All(IsHex, h))
  }

  /** In the middle of a body, or waiting after that went wrong. */
  predicate InBody(a: Acc) {
    a.state == WaitingState || a.state == ReadingState
  }

  lemma {:induction false} GarbledBody(capacity: nat, a: Acc, s: string)
    requires InBody(a) && All(NotBang, s) && '/' !in s
    ensures InBody(Feed(capacity, a, s).0)
  {
    hide Push, Crc, CrcParse, Feed;
    if s == "" {
      NothingFed(capacity, a);
    } else {
      var u, c := s[..|s| - 1], s[|s| - 1];
      GarbledBody(capacity, a, u);
      FeedAppend(capacity, a, u, [c]);
      FeedOne(capacity, Feed(capacity, a, u).0, c);
      assert s == u + [c];
    }
  }

  lemma SlashIsNotHex()
    ensures !IsHex('/') && !IsEol('/') && !IsHex('!')
  {}

  /** A suffix leaves the checksum state. */
  lemma {:induction false} SuffixEnds(capacity: nat, a: Acc, h: string)
    requires IsSuffix(h) && (a.state == WaitingState || (a.state == ChecksumState && a.suffix == ""))
    ensures Feed(capacity, a, h + "\r\n").0.state == WaitingState
  {
    hide Push, Crc, CrcParse, Feed, IsHex;
    NoSlashInSuffix(h);
    if a.state == WaitingState {
      WaitingSkips(capacity, a, h + "\r\n");
    } else if h == "" {
      FeedOne(capacity, a, '\r');
      assert h + "\r\n" == ['\r'] + "\n";
      FeedAppend(capacity, a, ['\r'], "\n");
      WaitingSkips(capacity, Feed(capacity, a, ['\r']).0, "\n");
    } else {
      DigitsEnd(capacity, a, h, "\r\n");
    }
  }

  /** Digits complete the suffix or end it early; either way the receiver waits afterwards. */
  lemma {:induction false} DigitsEnd(capacity: nat, a: Acc, h: string, tail: string)
    requires a.state == ChecksumState && |a.suffix| + |h| == CRC_LEN && h != "" && All(IsHex, h)
    requires '/' !in h + tail
    ensures Feed(capacity, a, h + tail).0.state == WaitingState
    decreases |h|
  {
    hide Push, Crc, CrcParse, Feed, IsHex;
    var c, rest := h[0], h[1..] + tail;
    assert h + tail == [c] + rest;
    FeedOne(capacity, a, c);
    FeedAppend(capacity, a, [c], rest);
    EolIsNotHex(c);
    var b := Step(capacity, true, a, c).0;
    assert forall i :: 0 <= i < |rest| ==> rest[i] == (h + tail)[i + 1];
    if b.state == WaitingState {
      WaitingSkips(capacity, b, rest);
    } else {
      DigitsEnd(capacity, b, h[1..], tail);
    }
  }

  lemma NoSlashInSuffix(h: string)
    requires IsSuffix(h)
    ensures '/' !in h + "\r\n"
  {
    hide IsHex;
    SlashIsNotHex();
  }

  /**
   Resynchronisation: whatever state a receiver is in, a telegram of either
   format with a body free of '/' leaves it waiting.
   */
  lemma {:induction false} Resynchronises(capacity: nat, a: Acc, body: string, h: string)
    requires All(NotBang, body) && '/' !in body && IsSuffix(h)
    requires a.state == ChecksumState ==> |a.suffix| < CRC_LEN
    ensures Feed(capacity, a, "/" + body + "!" + (h + "\r\n")).0.state == WaitingState
  {
    hide Push, Crc, CrcParse, Feed, IsHex;
    SlashIsNotHex();
    var b := Step(capacity, true, a, '/').0;
    FeedOne(capacity, a, '/');
    assert InBody(b);
    assert "/" + body == ['/'] + body && "/" + body + "!" == "/" + body + ['!'];
    FeedAppend(capacity, a, ['/'], body);
    GarbledBody(capacity, b, body);
    var c := Feed(capacity, b, body).0;
    FeedAppend(capacity, a, "/" + body, ['!']);
    FeedOne(capacity, c, '!');
    var d := Step(capacity, true, c, '!').0;
    FeedAppend(capacity, a, "/" + body + "!", h + "\r\n");
    SuffixEnds(capacity, d, h);
  }

  lemma {:induction false} LockedModeStays(capacity: nat, a: Acc, s: string)
    requires a.tracker.mode != Detecting
    ensures Feed(capacity, a, s).0.tracker.mode == a.tracker.mode
  {
    hide Push, Crc, CrcParse, Step;
    if s != "" {
      LockedModeStays(capacity, a, s[..|s| - 1]);
      StepKeepsMode(capacity, Feed(capacity, a, s[..|s| - 1]).0, s[|s| - 1]);
    }
  }

  lemma StepKeepsMode(capacity: nat, a: Acc, c: char)
    requires a.tracker.mode != Detecting
    ensures Step(capacity, true, a, c).0.tracker.mode == a.tracker.mode
  {
    hide Push, Crc, CrcParse, IsHex;
  }

  /**
   From any state with a locked mode, one telegram is lost at most: the next
   one of the locked format is received. Every state after a run meets the
   first condition, by `RunSuffix`.
   */
  lemma {:induction false} SecondTelegramReceived(capacity: nat, a: Acc, body: string, h: string, body': string, h': string)
    requires a.state == ChecksumState ==> |a.suffix| < CRC_LEN
    requires (a.tracker.mode == Present && |h| == |h'| == CRC_LEN) || (a.tracker.mode == Absent && h == h' == "")
    requires All(NotBang, body) && '/' !in body && IsSuffix(h)
    requires Fits(capacity, body') && IsSuffix(h') && (h' != "" ==> HexValue(h') == Crc("/" + body' + "!"))
    ensures var b := Feed(capacity, a, "/" + body + "!" + (h + "\r\n")).0;
            var text := "/" + body' + "!" + (h' + "\r\n");
            && b.state == WaitingState
            && FirstVerdict(capacity, b, text) == Some(Complete)
            && Feed(capacity, b, text).0.body == body'
            && Feed(capacity, b, text).0.lastCrcPresent == (h' != "")
  {
    hide Feed, FirstVerdict, Crc, HexValue, IsHex;
    Resynchronises(capacity, a, body, h);
    LockedModeStays(capacity, a, "/" + body + "!" + (h + "\r\n"));
    Replay(capacity, Feed(capacity, a, "/" + body + "!" + (h + "\r\n")).0.tracker, body', h');
  }

  lemma {:induction false} RunSuffix(capacity: nat, es: seq<Event>)
    ensures var a := Run(capacity, true, es).0;
            a.state == ChecksumState ==> |a.suffix| < CRC_LEN
  {
    hide Run;
    RunInv(capacity, es);
  }

  // ---------------------------------------------------------- parting ways

  lemma CrcOf(a: char, b: char, c: char, d: char)
    ensures Crc([a, b, c, d]) == Push(Push(Push(Push(0, a), b), c), d)
    ensures Crc([a, b]) == Push(Push(0, a), b)
  {
    hide Push, Next, Octet;
    CrcGrows("", a);
    CrcGrows([a], b);
    CrcGrows([a, b], c);
    CrcGrows([a, b, c], d);
    assert "" + [a] == [a] && [a] + [b] == [a, b] && [a, b] + [c] == [a, b, c] && [a, b, c] + [d] == [a, b, c, d];
  }

  lemma SomeOctets()
    ensures Octet('/') == 0x2F && Octet('!') == 0x21 && Octet('0') == 0x30 && Octet('L') == 0x4C
  {
    hide Bits;
    SomeBits();
    MoreBits();
    assert '/' as int == 0x2F && '!' as int == 0x21 && '0' as int == 0x30 && 'L' as int == 0x4C;
  }

  lemma SomeBits()
    ensures Bits(0x2F, 8) == 0x2F && Bits(0x21, 8) == 0x21
  {
    hide Bits;
    DigitBits();
    BitsPush(5, 4);
    BitsPush(11, 5);
    BitsPush(23, 6);
    BitsPush(47, 7);
    BitsPush(4, 4);
    BitsPush(8, 5);
    BitsPush(16, 6);
    BitsPush(33, 7);
  }

  lemma MoreBits()
    ensures Bits(0x30, 8) == 0x30 && Bits(0x4C, 8) == 0x4C
  {
    hide Bits;
    DigitBits();
    BitsPush(6, 4);
    BitsPush(12, 5);
    BitsPush(24, 6);
    BitsPush(48, 7);
    BitsPush(9, 4);
    BitsPush(19, 5);
    BitsPush(38, 6);
    BitsPush(76, 7);
  }

  lemma {:induction false} BitsPush(n: nat, k: nat)
    ensures Bits(n, k + 1) == ShiftIn(Bits(n / 2, k), n % 2 == 1)
  {}

  lemma SomeUpdates()
    ensures Next(0, 0x2F) == 0xDC41
    ensures Next(0xDC41, 0x30) == 0x241C
  {}

  lemma MoreUpdates()
    ensures Next(0x241C, 0x4C) == 0x3C24
    ensures Next(0x3C24, 0x21) == 0x3FC
    ensures Next(0xDC41, 0x21) == 0x28DC
  {}

  lemma SomeCrcs()
    ensures Crc("/0L!") == 0x3FC
    ensures Crc("/!") == 0x28DC
  {
    hide Crc, Next, Octet;
    CrcOf('/', '0', 'L', '!');
    CrcOf('/', '!', '!', '!');
    SomeOctets();
    SomeUpdates();
    MoreUpdates();
    assert "/0L!" == ['/', '0', 'L', '!'] && "/!" == ['/', '!'];
  }

  lemma SomeNumerals()
    ensures All(IsHex, "3FC") && HexValue("3FC") == 0x3FC
    ensures All(IsHex, "28DC") && HexValue("28DC") == 0x28DC
  {
    hide Bits;
    DigitBits();
    assert "3FC"[..2] == "3F" && "3F"[..1] == "3" && "3"[..0] == "";
    assert HexValue("3") == 3 && HexValue("3F") == 0x3F;
    assert "28DC"[..3] == "28D" && "28D"[..2] == "28" && "28"[..1] == "2" && "2"[..0] == "";
    assert HexValue("2") == 2 && HexValue("28") == 0x28 && HexValue("28D") == 0x28D;
  }

  /** A sign in the place of a digit: the batch parser accepts what the receiver rejects. */
  lemma SignedChecksum(capacity: nat)
    requires capacity > 2
    ensures Judge("/0L!+3FC\r\n") == Accepted(3, 8)
    ensures FirstVerdict(capacity, Idle(NEW_TRACKER), "/0L!+3FC\r\n") == Some(Malformed)
  {
    hide Crc, HexValue, First, Feed, Judge, FirstVerdict;
    var rest := "+3FC\r\n";
    assert "/" + "0L" + "!" == "/0L!" && "/" + "0L" + "!" + rest == "/0L!+3FC\r\n";
    SomeCrcs();
    SomeNumerals();
    JudgeTelegram("0L", rest);
    SkipIs(NotEol, rest, 0, 4);
    assert Suffix(rest) == "+3FC";
    SkipIs(IsSpace, "+3FC", 0, 0);
    SkipIs(IsHex, "+3FC", 1, 4);
    assert Lead("+3FC") == 1 && "+3FC"[1..4] == "3FC" && "+3FC"[..1] == "+" && "+3FC"[..4] == "+3FC";
    TelegramVerdict(capacity, Idle(NEW_TRACKER), "0L", rest);
    SkipIs(IsHex, rest, 0, 0);
    SuffixVerdict(capacity, NEW_TRACKER, "0L", rest);
  }

  /** A fifth digit: the receiver has already completed what the batch parser rejects. */
  lemma FiveDigits(capacity: nat)
    ensures Judge("/!28DC0\r\n") == Rejected(MalformedChecksum, 2)
    ensures FirstVerdict(capacity, Idle(NEW_TRACKER), "/!28DC0\r\n") == Some(Complete)
  {
    hide Crc, HexValue, First, Feed, Judge, FirstVerdict, CrcParse;
    var rest := "28DC0\r\n";
    assert "/" + "" + "!" == "/!" && "/" + "" + "!" + rest == "/!28DC0\r\n";
    SomeCrcs();
    SomeNumerals();
    JudgeTelegram("", rest);
    SkipIs(NotEol, rest, 0, 5);
    TelegramVerdict(capacity, Idle(NEW_TRACKER), "", rest);
    SkipIs(IsHex, rest, 0, 5);
    SuffixVerdict(capacity, NEW_TRACKER, "", rest);
    assert rest[..CRC_LEN] == "28DC";
  }
}
