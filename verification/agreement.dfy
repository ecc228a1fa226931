/**
 The streaming receiver against the batch parser: when they accept the same
 text, when they read the same fields, and what a checksum detects.
 */
module Agreement {
  import opened Crc16
  import opened Text
  import opened Checksum
  import opened Fields
  import opened Telegram
  import opened TelegramLaws
  import opened Receiver
  import opened ReceiverLaws

  // ---------------------------------------------------------------- feeding

  /** The state after the bytes of s, and the result of each of them. */
  function Feed(capacity: nat, a: Acc, s: string): (r: (Acc, seq<Result>))
    ensures |r.1| == |s|
  {
    if s == "" then (a, []) else
    var (b, rs) := Feed(capacity, a, s[..|s| - 1]);
    var (c, r) := Step(capacity, true, b, s[|s| - 1]);
    (c, rs + [r])
  }

  /** The first result that is not Pending. */
  function First(rs: seq<Result>): Option<Result> {
    if rs == [] then None
    else if First(rs[..|rs| - 1]).Some? then First(rs[..|rs| - 1])
    else if rs[|rs| - 1] != Pending then Some(rs[|rs| - 1])
    else None
  }

  function FirstVerdict(capacity: nat, a: Acc, s: string): Option<Result> {
    First(Feed(capacity, a, s).1)
  }

  lemma {:induction false} FeedPush(capacity: nat, a: Acc, s: string, c: char)
    ensures var (b, rs) := Feed(capacity, a, s);
            Feed(capacity, a, s + [c]) == (Step(capacity, true, b, c).0, rs + [Step(capacity, true, b, c).1])
  {
    hide Step;
    assert (s + [c])[..|s|] == s;
  }

  lemma {:induction false} FirstPush(rs: seq<Result>, r: Result)
    ensures First(rs + [r]) == if First(rs).Some? then First(rs) else if r != Pending then Some(r) else None
  {
    assert (rs + [r])[..|rs|] == rs;
  }

  lemma {:induction false} FeedAppend(capacity: nat, a: Acc, s: string, t: string)
    ensures Feed(capacity, a, s + t).0 == Feed(capacity, Feed(capacity, a, s).0, t).0
    ensures FirstVerdict(capacity, a, s + t) ==
            if FirstVerdict(capacity, a, s).Some? then FirstVerdict(capacity, a, s)
            else FirstVerdict(capacity, Feed(capacity, a, s).0, t)
  {
    hide Step, First;
    if t == "" {
      assert s + t == s;
      FirstNone();
    } else {
      var u, c := t[..|t| - 1], t[|t| - 1];
      FeedAppend(capacity, a, s, u);
      assert s + t == s + u + [c] && t == u + [c];
      FeedPush(capacity, a, s + u, c);
      var m := Feed(capacity, a, s).0;
      FeedPush(capacity, m, u, c);
      FirstPush(Feed(capacity, a, s + u).1, Step(capacity, true, Feed(capacity, a, s + u).0, c).1);
      FirstPush(Feed(capacity, m, u).1, Step(capacity, true, Feed(capacity, m, u).0, c).1);
    }
  }

  lemma FirstNone()
    ensures First([]) == None
  {}

  /** One byte is fed like any text. */
  lemma {:induction false} FeedOne(capacity: nat, a: Acc, c: char)
    ensures Feed(capacity, a, [c]).0 == Step(capacity, true, a, c).0
    ensures FirstVerdict(capacity, a, [c]) == var r := Step(capacity, true, a, c).1; if r != Pending then Some(r) else None
  {
    hide Step, First;
    FeedPush(capacity, a, "", c);
    assert "" + [c] == [c];
    FirstPush([], Step(capacity, true, a, c).1);
    FirstNone();
  }

  // ---------------------------------------------------- one whole telegram

  predicate Fits(capacity: nat, body: string) {
    All(NotBang, body) && (|body| < capacity || body == "")
  }

  /** The state after '/' and a body, and after the '!' that ends it. */
  function Opened(t: Tracker, body: string): Acc {
    Acc(t, ReadingState, body, if t.mode == Absent then 0 else Crc("/" + body), "", false)
  }

  function Closed(t: Tracker, body: string): Acc {
    Acc(t, ChecksumState, body, if t.mode == Absent then 0 else Crc("/" + body + "!"), "", false)
  }

  lemma {:induction false} FeedBody(capacity: nat, a: Acc, body: string)
    requires a.state == WaitingState && Fits(capacity, body)
    ensures Feed(capacity, a, "/" + body).0 == Opened(a.tracker, body)
    ensures FirstVerdict(capacity, a, "/" + body) == None
  {
    hide Push, Crc, CrcParse, First, Feed;
    if body == "" {
      FeedOne(capacity, a, '/');
      CrcOfSlash();
      assert "/" + body == ['/'];
    } else {
      var u, c := body[..|body| - 1], body[|body| - 1];
      FeedBody(capacity, a, u);
      FeedAppend(capacity, a, "/" + u, [c]);
      FeedOne(capacity, Opened(a.tracker, u), c);
      assert "/" + body == "/" + u + [c] && body == u + [c];
      CrcGrows("/" + u, c);
    }
  }

  lemma {:induction false} FeedClosed(capacity: nat, a: Acc, body: string)
    requires a.state == WaitingState && Fits(capacity, body)
    ensures Feed(capacity, a, "/" + body + "!").0 == Closed(a.tracker, body)
    ensures FirstVerdict(capacity, a, "/" + body + "!") == None
  {
    hide Push, Crc, CrcParse, First, Feed;
    FeedBody(capacity, a, body);
    FeedAppend(capacity, a, "/" + body, "!");
    FeedOne(capacity, Opened(a.tracker, body), '!');
    assert "!" == ['!'];
    CrcGrows("/" + body, '!');
    assert "/" + body + "!" == "/" + body + ['!'];
  }

  lemma {:induction false} FeedDigits(capacity: nat, t: Tracker, body: string, h: string)
    requires t.mode != Absent && |h| < CRC_LEN && All(IsHex, h)
    ensures Feed(capacity, Closed(t, body), h).0 == Closed(t, body).(suffix := h)
    ensures FirstVerdict(capacity, Closed(t, body), h) == None
  {
    hide Push, Crc, CrcParse, First, Feed, IsHex;
    if h == "" {
      NothingFed(capacity, Closed(t, body));
    } else {
      var u, c := h[..|h| - 1], h[|h| - 1];
      FeedDigits(capacity, t, body, u);
      FeedAppend(capacity, Closed(t, body), u, [c]);
      FeedOne(capacity, Closed(t, body).(suffix := u), c);
      EolIsNotHex(c);
      assert h == u + [c];
    }
  }

  lemma {:induction false} NothingFed(capacity: nat, a: Acc)
    ensures Feed(capacity, a, "").0 == a && FirstVerdict(capacity, a, "") == None
  {}

  /** A waiting accumulator passes over everything but '/'. */
  lemma {:induction false} WaitingSkips(capacity: nat, a: Acc, s: string)
    requires a.state == WaitingState && '/' !in s
    ensures Feed(capacity, a, s).0 == a && FirstVerdict(capacity, a, s) == None
  {
    hide Push, Crc, CrcParse, First, Feed;
    if s == "" {
      NothingFed(capacity, a);
    } else {
      var u, c := s[..|s| - 1], s[|s| - 1];
      WaitingSkips(capacity, a, u);
      FeedAppend(capacity, a, u, [c]);
      FeedOne(capacity, a, c);
      assert s == u + [c];
    }
  }

  /** What the suffix of a telegram leads to. */
  lemma {:induction false} SuffixVerdict(capacity: nat, t: Tracker, body: string, rest: string)
    requires rest != ""
    ensures var v, n := FirstVerdict(capacity, Closed(t, body), rest), Skip(IsHex, rest, 0);
            if IsEol(rest[0]) then v == Some(if t.mode == Present then Malformed else Complete)
            else if t.mode == Absent then v == Some(Malformed)
            else if n >= CRC_LEN then v == Some(if HexValue(rest[..CRC_LEN]) == Crc("/" + body + "!") then Complete else Mismatch)
            else v == if n == |rest| then None else Some(Malformed)
  {
    hide Push, Crc, CrcParse, First, Feed, IsHex, HexValue, FirstVerdict;
    var a := Closed(t, body);
    EolIsNotHex(rest[0]);
    if IsEol(rest[0]) || t.mode == Absent {
      FeedOne(capacity, a, rest[0]);
      assert rest == [rest[0]] + rest[1..];
      FeedAppend(capacity, a, [rest[0]], rest[1..]);
    } else {
      DigitsVerdict(capacity, t, body, rest);
    }
  }

  lemma {:induction false} DigitsVerdict(capacity: nat, t: Tracker, body: string, rest: string)
    requires rest != "" && NotEol(rest[0]) && t.mode != Absent
    ensures var v, n := FirstVerdict(capacity, Closed(t, body), rest), Skip(IsHex, rest, 0);
            if n >= CRC_LEN then v == Some(if HexValue(rest[..CRC_LEN]) == Crc("/" + body + "!") then Complete else Mismatch)
            else v == if n == |rest| then None else Some(Malformed)
  {
    hide Push, Crc, CrcParse, First, Feed, IsHex, HexValue, FirstVerdict;
    var a, n := Closed(t, body), Skip(IsHex, rest, 0);
    var k := if n >= CRC_LEN then CRC_LEN - 1 else n;
    FeedDigits(capacity, t, body, rest[..k]);
    if k == |rest| {
      assert rest[..k] == rest;
    } else {
      var b := a.(suffix := rest[..k]);
      EolIsNotHex(rest[k]);
      FeedOne(capacity, b, rest[k]);
      assert rest[..k] + [rest[k]] == rest[..k + 1];
      if n >= CRC_LEN {
        CrcParseHex(rest[..k + 1]);
      }
      assert rest == rest[..k] + ([rest[k]] + rest[k + 1..]);
      FeedAppend(capacity, a, rest[..k], [rest[k]] + rest[k + 1..]);
      FeedAppend(capacity, b, [rest[k]], rest[k + 1..]);
    }
  }

  lemma {:induction false} TelegramVerdict(capacity: nat, a: Acc, body: string, rest: string)
    requires a.state == WaitingState && Fits(capacity, body)
    ensures FirstVerdict(capacity, a, "/" + body + "!" + rest) == FirstVerdict(capacity, Closed(a.tracker, body), rest)
    ensures Feed(capacity, a, "/" + body + "!" + rest).0 == Feed(capacity, Closed(a.tracker, body), rest).0
  {
    hide First, Feed, Crc;
    FeedClosed(capacity, a, body);
    FeedAppend(capacity, a, "/" + body + "!", rest);
  }

  // ------------------------------------------------- against the batch parser

  /** The checksum characters that the batch parser looks at. */
  function Suffix(rest: string): string {
    rest[..Skip(NotEol, rest, 0)]
  }

  lemma {:induction false} SkipPast(p: char -> bool, head: string, rest: string)
    ensures Skip(p, head + rest, |head|) == |head| + Skip(p, rest, 0)
  {
    var s, k := head + rest, Skip(p, rest, 0);
    assert forall i :: |head| <= i < |s| ==> s[i] == rest[i - |head|];
    SkipIs(p, s, |head|, |head| + k);
  }

  /** Where the end marker and the suffix of a telegram are. */
  lemma {:induction false} TelegramLies(body: string, rest: string)
    requires All(NotBang, body)
    ensures var text, k := "/" + body + "!" + rest, Skip(NotEol, rest, 0);
            && Skip(NotBang, text, 1) == |body| + 1
            && Skip(NotEol, text, |body| + 2) == |body| + 2 + k
            && text[|body| + 2..|body| + 2 + k] == Suffix(rest)
            && text[..|body| + 2] == "/" + body + "!"
  {
    var head, k := "/" + body + "!", Skip(NotEol, rest, 0);
    assert forall i :: 1 <= i < |body| + 1 ==> (head + rest)[i] == body[i - 1];
    assert (head + rest)[|body| + 1] == '!';
    SkipIs(NotBang, head + rest, 1, |body| + 1);
    SkipPast(NotEol, head, rest);
    assert (head + rest)[|head|..|head| + k] == rest[..k];
  }

  lemma JudgeTelegram(body: string, rest: string)
    requires All(NotBang, body)
    ensures var text, s := "/" + body + "!" + rest, Suffix(rest);
            Judge(text) ==
              if s == "" then Accepted(|body| + 1, |body| + 2)
              else if |s| != CRC_LEN then Rejected(MalformedChecksum, |body| + 2)
              else match CrcParse(s)
                case Fail(e, c) => Rejected(e, c + |body| + 2)
                case Ok(check, _) => if check != Crc("/" + body + "!") then Rejected(ChecksumMismatch, |body| + 2)
                                     else Accepted(|body| + 1, |body| + 2 + CRC_LEN)
  {
    hide Crc, CrcParse;
    TelegramLies(body, rest);
  }

  /** Every text that starts with '/' is a body, or a body with its end marker and a suffix. */
  lemma Parted(text: string) returns (body: string, suffix: Option<string>)
    requires text != "" && text[0] == '/'
    ensures All(NotBang, body)
    ensures text == if suffix == None then "/" + body else "/" + body + "!" + suffix.value
  {
    var k := Skip(NotBang, text, 1);
    body := text[1..k];
    suffix := if k == |text| then None else Some(text[k + 1..]);
    assert text == if k == |text| then "/" + text[1..k] else "/" + text[1..k] + "!" + text[k + 1..];
  }

  predicate Framed(text: string, body: string, rest: string) {
    All(NotBang, body) && text == "/" + body + "!" + rest
  }

  /** Four characters in which strtoul finds a number up to the last one. */
  predicate IsChecksum(s: string) {
    |s| == CRC_LEN && Lead(s) < CRC_LEN && All(IsHex, s[Lead(s)..])
  }

  predicate Fails(v: Verdict, err: Error) {
    v.Rejected? && v.err == err
  }

  /** The verdict on a text with both markers. */
  lemma FramedVerdict(text: string, body: string, rest: string)
    requires Framed(text, body, rest)
    ensures var v, s, crc := Judge(text), Suffix(rest), Crc("/" + body + "!");
            && (v.Accepted? <==> s == "" || Denotes(s, crc))
            && (Fails(v, ChecksumMismatch) <==> IsChecksum(s) && !Denotes(s, crc))
            && (Fails(v, MalformedChecksum) <==> s != "" && !IsChecksum(s))
            && !Fails(v, NoStart) && !Fails(v, NoEndMarker)
  {
    hide Crc, Lead, SignedValue, HexNibble;
    JudgeTelegram(body, rest);
    var s := Suffix(rest);
    if |s| == CRC_LEN {
      CrcParseAccepts(s);
      RefusedChecksum(s);
    }
  }

  lemma RefusedChecksum(s: string)
    requires |s| == CRC_LEN
    ensures CrcParse(s).Fail? ==> CrcParse(s).err == MalformedChecksum
  {
    hide Strtoul;
  }

  lemma Unframed(text: string)
    ensures text == "" || text[0] != '/' ==> Judge(text) == Rejected(NoStart, 0)
    ensures text != "" && text[0] == '/' && '!' !in text ==> Judge(text) == Rejected(NoEndMarker, |text|)
  {
    hide Crc, CrcParse;
    if text != "" && text[0] == '/' && '!' !in text {
      SkipIs(NotBang, text, 1, |text|);
    }
  }

  /**
   Every text: it is accepted exactly when it has both markers, and a suffix
   that is empty or denotes the CRC; which error it gives otherwise depends on
   whether the first marker, the second one, or the checksum is at fault.
   */
  lemma JudgeMeans(text: string)
    ensures var v := Judge(text);
            && (v.Accepted? <==> exists body, rest ::
                  Framed(text, body, rest) && (Suffix(rest) == "" || Denotes(Suffix(rest), Crc("/" + body + "!"))))
            && (Fails(v, NoStart) <==> text == "" || text[0] != '/')
            && (Fails(v, NoEndMarker) <==> text != "" && text[0] == '/' && '!' !in text)
            && (Fails(v, ChecksumMismatch) <==> exists body, rest ::
                  Framed(text, body, rest) && IsChecksum(Suffix(rest)) && !Denotes(Suffix(rest), Crc("/" + body + "!")))
            && (Fails(v, MalformedChecksum) <==> exists body, rest ::
                  Framed(text, body, rest) && Suffix(rest) != "" && !IsChecksum(Suffix(rest)))
  {
    hide Judge, Crc, IsChecksum, Denotes, Suffix;
    Unframed(text);
    forall body, rest | Framed(text, body, rest)
      ensures var v, s, crc := Judge(text), Suffix(rest), Crc("/" + body + "!");
              && (v.Accepted? <==> s == "" || Denotes(s, crc))
              && (Fails(v, ChecksumMismatch) <==> IsChecksum(s) && !Denotes(s, crc))
              && (Fails(v, MalformedChecksum) <==> s != "" && !IsChecksum(s))
              && !Fails(v, NoStart) && !Fails(v, NoEndMarker) && text[0] == '/' && '!' in text
    {
      FramedVerdict(text, body, rest);
      assert text[0] == '/' && text[|body| + 1] == '!';
    }
    if text != "" && text[0] == '/' && '!' in text {
      var body, suffix := Parted(text);
      if suffix == None {
        BangInBody(body);
      } else {
        assert Framed(text, body, suffix.value);
      }
    }
  }

  lemma BangInBody(body: string)
    requires All(NotBang, body)
    ensures '!' !in "/" + body
  {
    assert forall i :: 0 <= i < |"/" + body| ==> ("/" + body)[i] == if i == 0 then '/' else body[i - 1];
  }

  /** White space, a sign or 0x in the place of digits, and then the CRC. */
  predicate OddSuffix(s: string, crc: bv16) {
    Denotes(s, crc) && Lead(s) > 0
  }

  /** More than four characters of which the first four are the CRC. */
  predicate LongSuffix(s: string, crc: bv16) {
    |s| > CRC_LEN && All(IsHex, s[..CRC_LEN]) && HexValue(s[..CRC_LEN]) == crc
  }

  lemma {:induction false} HexRunInSuffix(rest: string)
    ensures var s := Suffix(rest);
            (Skip(IsHex, rest, 0) >= CRC_LEN <==> |s| >= CRC_LEN && All(IsHex, s[..CRC_LEN]))
            && (|s| >= CRC_LEN ==> |rest| >= CRC_LEN && s[..CRC_LEN] == rest[..CRC_LEN])
  {
    hide IsHex;
    var s, n := Suffix(rest), Skip(IsHex, rest, 0);
    if n >= CRC_LEN {
      EolIsNotHex(rest[0]);
      EolIsNotHex(rest[1]);
      EolIsNotHex(rest[2]);
      EolIsNotHex(rest[3]);
      SkipAtLeast(NotEol, rest, 0, CRC_LEN);
    }
    if |s| >= CRC_LEN && All(IsHex, s[..CRC_LEN]) {
      assert forall i :: 0 <= i < CRC_LEN ==> rest[i] == s[..CRC_LEN][i];
      SkipAtLeast(IsHex, rest, 0, CRC_LEN);
    }
  }

  lemma {:induction false} SkipAtLeast(p: char -> bool, s: string, k: nat, n: nat)
    requires k <= n <= |s| && forall i :: k <= i < n ==> p(s[i])
    ensures Skip(p, s, k) >= n
    decreases |s| - k
  {
    if k < n {
      SkipAtLeast(p, s, k + 1, n);
    }
  }

  /**
   A receiver whose mode is still open and the batch parser agree on a text
   except in exactly three cases: nothing follows the '!', so that the
   receiver still waits; digits of the right CRC are followed by more
   characters; the right CRC is written with white space, a sign or 0x in the
   place of digits, which strtoul reads.
   */
  lemma BatchAndStreamAgree(capacity: nat, a: Acc, body: string, rest: string)
    requires a.state == WaitingState && a.tracker.mode == Detecting && Fits(capacity, body)
    ensures var text, s, crc := "/" + body + "!" + rest, Suffix(rest), Crc("/" + body + "!");
            (Judge(text).Accepted? <==> FirstVerdict(capacity, a, text) == Some(Complete))
              <==> !(rest == "" || LongSuffix(s, crc) || OddSuffix(s, crc))
  {
    hide First, Feed, Crc, CrcParse, HexValue, IsHex, Lead, SignedValue;
    var s := Suffix(rest);
    JudgeTelegram(body, rest);
    TelegramVerdict(capacity, a, body, rest);
    HexRunInSuffix(rest);
    if rest == "" {
      NothingFed(capacity, Closed(a.tracker, body));
    } else {
      SuffixVerdict(capacity, a.tracker, body, rest);
      if |s| == CRC_LEN {
        assert s[..CRC_LEN] == s;
        CrcParseAccepts(s);
        if All(IsHex, s) {
          CrcParseHex(s);
        }
      }
    }
  }

  /**
   For a suffix of at most four characters, all digits when there are four,
   and a line end, both accept the same texts.
   */
  lemma ShortSuffixesAgree(capacity: nat, a: Acc, body: string, suffix: string)
    requires a.state == WaitingState && a.tracker.mode == Detecting && Fits(capacity, body)
    requires |suffix| <= CRC_LEN && (|suffix| == CRC_LEN ==> All(IsHex, suffix))
    ensures var text := "/" + body + "!" + suffix + "\r\n";
            Judge(text).Accepted? <==> FirstVerdict(capacity, a, text) == Some(Complete)
  {
    hide First, Feed, Crc, CrcParse, HexValue, IsHex, Judge, FirstVerdict, Lead, SignedValue;
    var rest := suffix + "\r\n";
    assert "/" + body + "!" + suffix + "\r\n" == "/" + body + "!" + rest;
    BatchAndStreamAgree(capacity, a, body, rest);
    assert rest[|suffix|] == '\r';
    assert |Suffix(rest)| <= |suffix|;
    assert |Suffix(rest)| == |suffix| ==> Suffix(rest) == suffix;
    if |suffix| == CRC_LEN {
      HexLead(suffix);
    }
  }

  /**
   Where the parser takes the fields from does not matter: the accepted text
   and the buffer of a receiver that holds the same body give the same data,
   the same count and the same first bad line; a rejected text changes nothing.
   */
  lemma SameFields(fields: seq<Field>, d: Data, body: string, rest: string, buffer: string, unknownError: bool)
    requires SingleLineFields(fields) && Sized(fields, d) && All(NotBang, body)
    requires |body| <= |buffer| && buffer[..|body|] == body
    ensures var text := "/" + body + "!" + rest;
            var (d', outcome) := ParseAll(fields, d, text, unknownError);
            var (d'', report) := DataPart(fields, d, buffer, 0, |body|, unknownError);
            var h := Harvested(fields, d, body, unknownError);
            && d'' == h.data && SameReport(buffer, |body|, report, h)
            && (if Judge(text).Accepted? then
                  d' == d'' && outcome.Parsed? && SameReport(text, |body| + 1, outcome.report, h)
                  && outcome.next == |body| + 2 + |Suffix(rest)|
                else d' == d && outcome.Failed?)
  {
    hide Judge, DataPart, Harvested, LineText;
    var text := "/" + body + "!" + rest;
    SplitAndFold(fields, d, buffer, 0, |body|, unknownError);
    assert buffer[0..|body|] == body;
    if Judge(text).Accepted? {
      JudgeEnd(body, rest);
      SplitAndFold(fields, d, text, 1, |body| + 1, unknownError);
      assert text[1..|body| + 1] == body;
    }
  }

  lemma JudgeEnd(body: string, rest: string)
    requires All(NotBang, body)
    ensures var v := Judge("/" + body + "!" + rest);
            v.Accepted? ==> v.dataEnd == |body| + 1 && v.next == |body| + 2 + |Suffix(rest)|
  {
    hide Crc, CrcParse;
    JudgeTelegram(body, rest);
  }

  // ------------------------------------------------ what a checksum detects

  /** A telegram with a checksum, and its body replaced by another one. */
  lemma {:induction false} WrongCrcRejected(capacity: nat, a: Acc, body: string, h: string, tail: string)
    requires a.state == WaitingState && a.tracker.mode != Absent && Fits(capacity, body)
    requires |h| == CRC_LEN && All(IsHex, h) && HexValue(h) != Crc("/" + body + "!")
    requires tail == "" || IsEol(tail[0])
    ensures Judge("/" + body + "!" + h + tail) == Rejected(ChecksumMismatch, |body| + 2)
    ensures FirstVerdict(capacity, a, "/" + body + "!" + h + tail) == Some(Mismatch)
  {
    hide First, Feed, Crc, CrcParse, HexValue, IsHex, Judge, FirstVerdict;
    var rest := h + tail;
    assert "/" + body + "!" + h + tail == "/" + body + "!" + rest;
    assert forall i :: 0 <= i < CRC_LEN ==> rest[i] == h[i];
    JudgeTelegram(body, rest);
    SuffixIs(h, tail);
    CrcParseHex(h);
    TelegramVerdict(capacity, a, body, rest);
    SuffixVerdict(capacity, a.tracker, body, rest);
    SkipAtLeast(IsHex, rest, 0, CRC_LEN);
    EolIsNotHex(rest[0]);
    assert rest[..CRC_LEN] == h;
  }

  lemma SuffixIs(h: string, tail: string)
    requires All(IsHex, h)
    requires tail == "" || IsEol(tail[0])
    ensures Suffix(h + tail) == h
  {
    hide IsHex;
    var rest := h + tail;
    forall i | 0 <= i < |h|
      ensures NotEol(rest[i])
    {
      assert rest[i] == h[i];
      EolIsNotHex(h[i]);
    }
    assert tail != "" ==> rest[|h|] == tail[0];
    SkipIs(NotEol, rest, 0, |h|);
    assert rest[..|h|] == h;
  }

  /**
   A burst of at most sixteen bits in the body of a telegram with a correct
   CRC, wherever it lies, makes the batch parser and every receiver that
   still looks at the CRC report a mismatch.
   */
  lemma {:induction false} BurstErrorRejected(capacity: nat, a: Acc, body: string, body': string, h: string, tail: string, k: nat, m: bv16)
    requires a.state == WaitingState && a.tracker.mode != Absent && Fits(capacity, body')
    requires |h| == CRC_LEN && All(IsHex, h) && HexValue(h) == Crc("/" + body + "!")
    requires tail == "" || IsEol(tail[0])
    requires var t, u := "/" + body + "!", "/" + body' + "!";
             t != u && AgreeOutside(t, u, k)
             && ShortBurst(Diff(t[k], u[k]), Diff(t[k + 1], u[k + 1]), Diff(t[k + 2], u[k + 2]), m)
    ensures Judge("/" + body' + "!" + h + tail) == Rejected(ChecksumMismatch, |body'| + 2)
    ensures FirstVerdict(capacity, a, "/" + body' + "!" + h + tail) == Some(Mismatch)
  {
    hide Crc, HexValue, IsHex, Judge, FirstVerdict, ShortBurst, Diff;
    BurstDetected("/" + body + "!", "/" + body' + "!", k, m);
    WrongCrcRejected(capacity, a, body', h, tail);
  }

  predicate Bytes(s: string) {
    forall i :: 0 <= i < |s| ==> IsOctet(s[i])
  }

  /** One byte, or two adjacent bytes, of a body replaced by others. */
  predicate TwoBytesApart(body: string, body': string, k: nat) {
    && Bytes(body) && Bytes(body') && |body| == |body'| && body != body' && k < |body|
    && forall i :: 0 <= i < |body| && i != k && i != k + 1 ==> body[i] == body'[i]
  }

  lemma {:induction false} TwoByteChangeRejected(capacity: nat, a: Acc, body: string, body': string, h: string, tail: string, k: nat)
    requires a.state == WaitingState && a.tracker.mode != Absent && Fits(capacity, body')
    requires |h| == CRC_LEN && All(IsHex, h) && HexValue(h) == Crc("/" + body + "!")
    requires tail == "" || IsEol(tail[0])
    requires TwoBytesApart(body, body', k)
    ensures Judge("/" + body' + "!" + h + tail) == Rejected(ChecksumMismatch, |body'| + 2)
    ensures FirstVerdict(capacity, a, "/" + body' + "!" + h + tail) == Some(Mismatch)
  {
    hide Crc, HexValue, IsHex, Judge, FirstVerdict, Diff, ShortBurst;
    var t, u := "/" + body + "!", "/" + body' + "!";
    FramedWindow(body, body', k);
    FirstSame(t[k], t[k + 1], u[k + 1], t[k + 2], u[k + 2]);
    BurstErrorRejected(capacity, a, body, body', h, tail, k, 0xFF);
  }

  lemma FramedWindow(body: string, body': string, k: nat)
    requires TwoBytesApart(body, body', k)
    ensures var t, u := "/" + body + "!", "/" + body' + "!";
            AgreeOutside(t, u, k) && t != u && t[k] == u[k]
  {
    var t, u, n := "/" + body + "!", "/" + body' + "!", |body| + 2;
    assert forall i :: 1 <= i <= |body| ==> t[i] == body[i - 1] && u[i] == body'[i - 1];
    assert forall i :: 0 <= i < n && i != k + 1 && i != k + 2 ==> t[i] == u[i];
    SameSlice(t, u, 0, k);
    SameSlice(t, u, k + 3, n);
    assert t[0..k] == t[..k] && u[0..k] == u[..k] && t[k + 3..n] == t[k + 3..] && u[k + 3..n] == u[k + 3..];
    assert body == t[1..n - 1] && body' == u[1..n - 1];
  }

  lemma FirstSame(x: char, y: char, y': char, z: char, z': char)
    ensures ShortBurst(Diff(x, x), Diff(y, y'), Diff(z, z'), 0xFF)
  {
    hide Octet;
    XorZero(Octet(x), Octet(x));
    DiffBound(y, y');
    DiffBound(z, z');
  }

  lemma DiffBound(y: char, y': char)
    ensures Diff(y, y') <= 0xFF
  {
    hide Octet;
    OctetFaithful(y, y');
    OctetFaithful(y', y);
  }

  /** So does every change of an odd number of bits, even one of the length. */
  lemma {:induction false} OddChangeRejected(capacity: nat, a: Acc, body: string, body': string, h: string, tail: string)
    requires a.state == WaitingState && a.tracker.mode != Absent && Fits(capacity, body')
    requires |h| == CRC_LEN && All(IsHex, h) && HexValue(h) == Crc("/" + body + "!")
    requires tail == "" || IsEol(tail[0])
    requires OddText("/" + body + "!") != OddText("/" + body' + "!")
    ensures Judge("/" + body' + "!" + h + tail) == Rejected(ChecksumMismatch, |body'| + 2)
    ensures FirstVerdict(capacity, a, "/" + body' + "!" + h + tail) == Some(Mismatch)
  {
    hide Crc, HexValue, IsHex, Judge, FirstVerdict, OddOnes, OddText;
    CrcParity("/" + body + "!");
    CrcParity("/" + body' + "!");
    WrongCrcRejected(capacity, a, body', h, tail);
  }
}
