/** The server side of MMTP, the Mixminion Transfer Protocol (class
    MMTPServerConnection of lib/mixminion/server/MMTPServer.py): version
    negotiation on the first line, then fixed-size frames, each checked
    against its SHA-1 digest and acknowledged.  The TLS connection beneath
    is reduced to an inbound and an outbound byte buffer and two flags;
    sha1 is a parameter. */
module MMTPConnection {
  import opened Common

  /** Frame layout: a 6-byte control, a 32768-byte packet, a 20-byte digest. */
  const CONTROL_LEN: nat := 6
  const PACKET_LEN: nat := 32768
  const MESSAGE_LEN: nat := CONTROL_LEN + PACKET_LEN + DIGEST_LEN

  const SEND_CONTROL: seq<byte> := [83, 69, 78, 68, 13, 10]  // "SEND\r\n"
  const JUNK_CONTROL: seq<byte> := [74, 85, 78, 75, 13, 10]  // "JUNK\r\n"
  const RECEIVED_CONTROL: seq<byte> := [82, 69, 67, 69, 73, 86, 69, 68, 13, 10]  // "RECEIVED\r\n"
  const REJECTED_CONTROL: seq<byte> := [82, 69, 74, 69, 67, 84, 69, 68, 13, 10]  // "REJECTED\r\n"

  /** The only protocol version this server speaks (PROTOCOL_VERSIONS). */
  const VERSION_03: seq<byte> := [48, 46, 51]  // "0.3"
  const MMTP_PREFIX: seq<byte> := [77, 77, 84, 80, 32]  // "MMTP "
  const CRLF: seq<byte> := [13, 10]  // "\r\n"
  const COMMA: byte := 44
  /** An acknowledgement: a 10-byte control and a 20-byte digest. */
  const ACK_LEN: nat := 30

  /** What sha1 is taken over after the packet, per frame kind. */
  const JUNK_SUFFIX: seq<byte> := [74, 85, 78, 75]  // "JUNK"
  const RECEIVED_JUNK_SUFFIX: seq<byte> := [82, 69, 67, 69, 73, 86, 69, 68, 32, 74, 85, 78, 75]  // "RECEIVED JUNK"
  const SEND_SUFFIX: seq<byte> := [83, 69, 78, 68]  // "SEND"
  const REJECTED_SUFFIX: seq<byte> := [82, 69, 74, 69, 67, 84, 69, 68]  // "REJECTED"
  const RECEIVED_SUFFIX: seq<byte> := [82, 69, 67, 69, 73, 86, 69, 68]  // "RECEIVED"

  /** The characters \s stands for in a byte-string regular expression. */
  predicate IsSpace(b: byte)
  {
    b == 32 || (9 <= b <= 13)
  }

  /** The length of the longest prefix of s without whitespace. */
  function NonSpaceRun(s: seq<byte>): (n: nat)
    ensures n <= |s|
    ensures forall i :: 0 <= i < n ==> !IsSpace(s[i])
    ensures n < |s| ==> IsSpace(s[n])
  {
    if s == [] || IsSpace(s[0]) then 0 else 1 + NonSpaceRun(s[1..])
  }

  /** Reference reading of PROTOCOL_RE.match(s) with group(1) == g: s starts
      with "MMTP ", then g (non-empty, no whitespace), then CR LF. */
  predicate MatchesWith(s: seq<byte>, g: seq<byte>)
  {
    |g| > 0 && (forall i :: 0 <= i < |g| ==> !IsSpace(g[i])) &&
    |MMTP_PREFIX + g + CRLF| <= |s| && s[..|MMTP_PREFIX + g + CRLF|] == MMTP_PREFIX + g + CRLF
  }

  /** PROTOCOL_RE.match(s): the group of the match, or None. */
  function MatchProtocol(s: seq<byte>): (g: Option<seq<byte>>)
  {
    if |s| < |MMTP_PREFIX| || s[..|MMTP_PREFIX|] != MMTP_PREFIX then None
    else
      var rest := s[|MMTP_PREFIX|..];
      var n := NonSpaceRun(rest);
      if n > 0 && n + 2 <= |rest| && rest[n..n + 2] == CRLF then Some(rest[..n]) else None
  }

  /** The matcher finds a group exactly when the line matches with it, and
      the group is then the only one possible. */
  lemma MatchProtocolCorrect(s: seq<byte>, g: seq<byte>)
    ensures MatchProtocol(s) == Some(g) <==> MatchesWith(s, g)
  {
    var P := MMTP_PREFIX;
    if MatchesWith(s, g) {
      var whole := P + g + CRLF;
      assert s[..|P|] == whole[..|P|] == P;
      var rest := s[|P|..];
      assert rest[..|g| + 2] == g + CRLF by {
        assert whole[|P|..] == g + CRLF;
      }
      assert rest[|g|] == CRLF[0];
      NonSpaceRunIs(rest, |g|);
      assert rest[..|g|] == g;
      assert rest[|g|..|g| + 2] == CRLF;
    }
    if MatchProtocol(s) == Some(g) {
      var rest := s[|P|..];
      var n := NonSpaceRun(rest);
      assert g == rest[..n];
      assert s[..|P + g + CRLF|] == s[..|P|] + rest[..n] + rest[n..n + 2];
    }
  }

  /** A run of non-whitespace ended by whitespace is the longest one. */
  lemma {:induction false} NonSpaceRunIs(s: seq<byte>, n: nat)
    requires n < |s| && IsSpace(s[n])
    requires forall i :: 0 <= i < n ==> !IsSpace(s[i])
    ensures NonSpaceRun(s) == n
  {
    if n > 0 {
      NonSpaceRunIs(s[1..], n - 1);
    }
  }

  /** str.split(sep): the pieces between separators, at least one. */
  function Split(s: seq<byte>, sep: byte): (pieces: seq<seq<byte>>)
    ensures |pieces| >= 1
    ensures forall p :: p in pieces ==> sep !in p
    decreases |s|
  {
    if sep !in s then [s]
    else
      var i := FirstIndex(s, sep);
      [s[..i]] + Split(s[i + 1..], sep)
  }

  function FirstIndex(s: seq<byte>, x: byte): (i: nat)
    requires x in s
    ensures i < |s| && s[i] == x && x !in s[..i]
  {
    if s[0] == x then 0 else 1 + FirstIndex(s[1..], x)
  }

  /** The pieces joined with the separator. */
  function JoinWith(pieces: seq<seq<byte>>, sep: byte): seq<byte>
    requires |pieces| >= 1
  {
    if |pieces| == 1 then pieces[0] else pieces[0] + [sep] + JoinWith(pieces[1..], sep)
  }

  /** Joining the pieces of a split gives the string back. */
  lemma {:induction false} SplitJoin(s: seq<byte>, sep: byte)
    ensures JoinWith(Split(s, sep), sep) == s
    decreases |s|
  {
    if sep in s {
      var i := FirstIndex(s, sep);
      var head, rest := s[..i], s[i + 1..];
      assert s == head + [sep] + rest;
      SplitAtFirst(head, sep, rest);
      SplitJoin(rest, sep);
      JoinWithCons(head, Split(rest, sep), sep);
    }
  }

  lemma JoinWithCons(p: seq<byte>, ps: seq<seq<byte>>, sep: byte)
    requires |ps| >= 1
    ensures JoinWith([p] + ps, sep) == p + [sep] + JoinWith(ps, sep)
  {
    assert ([p] + ps)[1..] == ps;
  }

  /** A version listed among others, separated by commas, is found. */
  lemma ListedVersionFound(before: seq<seq<byte>>, v: seq<byte>, after: seq<seq<byte>>)
    requires COMMA !in v
    requires forall p :: p in before + after ==> COMMA !in p
    ensures v in Split(JoinWith(before + [v] + after, COMMA), COMMA)
  {
    var pieces := before + [v] + after;
    SplitOfJoin(pieces, COMMA);
  }

  /** Splitting comma-free pieces joined with commas gives the pieces back. */
  lemma {:induction false} SplitOfJoin(pieces: seq<seq<byte>>, sep: byte)
    requires |pieces| >= 1
    requires forall k :: 0 <= k < |pieces| ==> sep !in pieces[k]
    ensures Split(JoinWith(pieces, sep), sep) == pieces
    decreases |pieces|
  {
    if |pieces| > 1 {
      var j := JoinWith(pieces[1..], sep);
      SplitAtFirst(pieces[0], sep, j);
      SplitOfJoin(pieces[1..], sep);
      calc {
        Split(JoinWith(pieces, sep), sep);
        Split(pieces[0] + [sep] + j, sep);
        [pieces[0]] + Split(j, sep);
        [pieces[0]] + pieces[1..];
        { assert pieces == [pieces[0]] + pieces[1..]; }
        pieces;
      }
    }
  }

  /** Splitting at the first separator. */
  lemma SplitAtFirst(a: seq<byte>, sep: byte, b: seq<byte>)
    requires sep !in a
    ensures Split(a + [sep] + b, sep) == [a] + Split(b, sep)
  {
    var s := a + [sep] + b;
    FirstIndexAfter(a, sep, b);
    assert s[..|a|] == a;
    assert s[|a| + 1..] == b;
  }

  lemma {:induction false} FirstIndexAfter(a: seq<byte>, x: byte, b: seq<byte>)
    requires x !in a
    ensures x in a + [x] + b && FirstIndex(a + [x] + b, x) == |a|
  {
    var s := a + [x] + b;
    assert s[|a|] == x;
    if a != [] {
      assert s[1..] == a[1..] + [x] + b;
      FirstIndexAfter(a[1..], x, b);
    }
  }

  /** Pieces without whitespace, joined with commas, hold no whitespace. */
  lemma {:induction false} JoinWithNoSpace(pieces: seq<seq<byte>>)
    requires |pieces| >= 1
    requires forall k, i :: 0 <= k < |pieces| && 0 <= i < |pieces[k]| ==> !IsSpace(pieces[k][i])
    ensures forall i :: 0 <= i < |JoinWith(pieces, COMMA)| ==> !IsSpace(JoinWith(pieces, COMMA)[i])
    decreases |pieces|
  {
    if |pieces| > 1 {
      JoinWithNoSpace(pieces[1..]);
      var j := JoinWith(pieces[1..], COMMA);
      var s := pieces[0] + [COMMA] + j;
      forall i | 0 <= i < |s|
        ensures !IsSpace(s[i])
      {
        if i < |pieces[0]| {
          assert s[i] == pieces[0][i];
        } else if i > |pieces[0]| {
          assert s[i] == j[i - |pieces[0]| - 1];
        }
      }
    }
  }

  /** A greeting "MMTP v1,v2,...\r\n" whose list names 0.3 among versions
      without commas or whitespace (not all empty) yields that list, and
      0.3 is found in it. */
  lemma GreetingAccepted(before: seq<seq<byte>>, after: seq<seq<byte>>)
    requires forall p :: p in before + after ==> COMMA !in p
    requires forall k, i :: 0 <= k < |before + after| && 0 <= i < |(before + after)[k]| ==>
               !IsSpace((before + after)[k][i])
    ensures var g := JoinWith(before + [VERSION_03] + after, COMMA);
            MatchProtocol(MMTP_PREFIX + g + CRLF) == Some(g) &&
            VERSION_03 in Split(g, COMMA)
  {
    var pieces := before + [VERSION_03] + after;
    PiecesWithoutSpace(before, after);
    JoinWithNoSpace(pieces);
    var g := JoinWith(pieces, COMMA);
    assert |g| > 0 by {
      JoinWithLength(pieces);
    }
    var line := MMTP_PREFIX + g + CRLF;
    assert MatchesWith(line, g) by {
      assert line[..|line|] == line;
    }
    MatchProtocolCorrect(line, g);
    ListedVersionFound(before, VERSION_03, after);
  }

  lemma PiecesWithoutSpace(before: seq<seq<byte>>, after: seq<seq<byte>>)
    requires forall k, i :: 0 <= k < |before + after| && 0 <= i < |(before + after)[k]| ==>
               !IsSpace((before + after)[k][i])
    ensures var pieces := before + [VERSION_03] + after;
            forall k, i :: 0 <= k < |pieces| && 0 <= i < |pieces[k]| ==> !IsSpace(pieces[k][i])
  {
    var pieces := before + [VERSION_03] + after;
    forall k, i | 0 <= k < |pieces| && 0 <= i < |pieces[k]|
      ensures !IsSpace(pieces[k][i])
    {
      if k < |before| {
        assert pieces[k] == (before + after)[k];
      } else if k > |before| {
        assert pieces[k] == (before + after)[k - 1];
      }
    }
  }

  lemma {:induction false} JoinWithLength(pieces: seq<seq<byte>>)
    requires |pieces| >= 1
    ensures forall k :: 0 <= k < |pieces| ==> |JoinWith(pieces, COMMA)| >= |pieces[k]|
    decreases |pieces|
  {
    if |pieces| > 1 {
      JoinWithLength(pieces[1..]);
      forall k | 1 <= k < |pieces|
        ensures |JoinWith(pieces, COMMA)| >= |pieces[k]|
      {
        assert pieces[k] == pieces[1..][k - 1];
      }
    }
  }

  /** What getInbufLine(4096, clear=1) reported. */
  datatype ProtocolLine =
    | NoLine                 // no complete line yet (None)
    | Overlong               // no newline within the limit (-1)
    | Line(s: seq<byte>)

  /** Which of the connection's methods handles readable data. */
  datatype ReadHandler = NotReading | ReadProtocolHandler | DataReadHandler
  /** Which of the connection's methods is told that a write completed. */
  datatype WriteHandler = NoWriteHandler | ProtocolWrittenHandler | DataWrittenHandler

  /** The callbacks the connection makes, in order. */
  datatype Callback = Consumed(pkt: seq<byte>) | JunkReceived | PacketRejected

  /** The verdict on one MESSAGE_LEN-byte frame. */
  datatype FrameVerdict =
    | BadFrame                                   // unknown control or wrong digest
    | GoodFrame(callback: Callback, ack: seq<byte>)

  /** One frame: control data[:6], packet data[6:-20], digest data[-20:]. */
  function CheckFrame(data: seq<byte>, reject: bool, sha1: seq<byte> -> Digest): (v: FrameVerdict)
    requires |data| == MESSAGE_LEN
    // a frame is accepted exactly when its control is known and its digest
    // is sha1 of the packet followed by that control's word
    ensures v.GoodFrame? <==>
              (data[..CONTROL_LEN] == JUNK_CONTROL &&
               data[MESSAGE_LEN - DIGEST_LEN..] == sha1(data[CONTROL_LEN..MESSAGE_LEN - DIGEST_LEN] + JUNK_SUFFIX)) ||
              (data[..CONTROL_LEN] == SEND_CONTROL &&
               data[MESSAGE_LEN - DIGEST_LEN..] == sha1(data[CONTROL_LEN..MESSAGE_LEN - DIGEST_LEN] + SEND_SUFFIX))
    ensures v.GoodFrame? ==> |v.ack| == ACK_LEN
    // only a sent packet in reject mode is refused
    ensures v.GoodFrame? ==>
              (v.ack[..10] == REJECTED_CONTROL <==> reject && data[..CONTROL_LEN] == SEND_CONTROL)
    // a packet reaches the consumer only outside reject mode, and it is the
    // frame's packet
    ensures v.GoodFrame? && v.callback.Consumed? ==>
              !reject && v.callback.pkt == data[CONTROL_LEN..MESSAGE_LEN - DIGEST_LEN]
    // what each accepted frame produces: padding is acknowledged as
    // "RECEIVED JUNK" and reported, a refused packet is acknowledged as
    // "REJECTED" and reported, and an accepted packet is consumed
    ensures var pkt := data[CONTROL_LEN..MESSAGE_LEN - DIGEST_LEN];
            v.GoodFrame? && data[..CONTROL_LEN] == JUNK_CONTROL ==>
              v == GoodFrame(JunkReceived, RECEIVED_CONTROL + sha1(pkt + RECEIVED_JUNK_SUFFIX))
    ensures var pkt := data[CONTROL_LEN..MESSAGE_LEN - DIGEST_LEN];
            v.GoodFrame? && data[..CONTROL_LEN] == SEND_CONTROL && reject ==>
              v == GoodFrame(PacketRejected, REJECTED_CONTROL + sha1(pkt + REJECTED_SUFFIX))
    ensures var pkt := data[CONTROL_LEN..MESSAGE_LEN - DIGEST_LEN];
            v.GoodFrame? && data[..CONTROL_LEN] == SEND_CONTROL && !reject ==>
              v == GoodFrame(Consumed(pkt), RECEIVED_CONTROL + sha1(pkt + RECEIVED_SUFFIX))
  {
    var control := data[..CONTROL_LEN];
    var pkt := data[CONTROL_LEN..MESSAGE_LEN - DIGEST_LEN];
    var digest := data[MESSAGE_LEN - DIGEST_LEN..];
    if control == JUNK_CONTROL then
      if sha1(pkt + JUNK_SUFFIX) != digest then BadFrame
      else GoodFrame(JunkReceived, RECEIVED_CONTROL + sha1(pkt + RECEIVED_JUNK_SUFFIX))
    else if control == SEND_CONTROL then
      if sha1(pkt + SEND_SUFFIX) != digest then BadFrame
      else if reject then GoodFrame(PacketRejected, REJECTED_CONTROL + sha1(pkt + REJECTED_SUFFIX))
      else GoodFrame(Consumed(pkt), RECEIVED_CONTROL + sha1(pkt + RECEIVED_SUFFIX))
    else BadFrame
  }

  /** What onDataRead leaves and produces from an inbound buffer. */
  datatype ReadOutcome = ReadOutcome(rest: seq<byte>, acks: seq<byte>, callbacks: seq<Callback>, shutdown: bool)

  /** onDataRead's loop, frame by frame from the front: a bad frame is
      consumed and stops everything without a callback or an ack. */
  function ReadFrames(buf: seq<byte>, reject: bool, sha1: seq<byte> -> Digest): (r: ReadOutcome)
    // only whole frames are consumed, from the front
    ensures |r.rest| <= |buf| && buf[|buf| - |r.rest|..] == r.rest
    // without a shutdown, everything but a partial frame is consumed
    ensures !r.shutdown ==> |r.rest| < MESSAGE_LEN
    decreases |buf|
  {
    if |buf| < MESSAGE_LEN then ReadOutcome(buf, [], [], false)
    else
      match CheckFrame(buf[..MESSAGE_LEN], reject, sha1)
      case BadFrame => ReadOutcome(buf[MESSAGE_LEN..], [], [], true)
      case GoodFrame(cb, ack) =>
        var r := ReadFrames(buf[MESSAGE_LEN..], reject, sha1);
        ReadOutcome(r.rest, ack + r.acks, [cb] + r.callbacks, r.shutdown)
  }

  /** One frame consumed from the front: either a bad frame ending the
      read, or one more callback and one more ack before the rest. */
  lemma ReadFramesStep(buf: seq<byte>, reject: bool, sha1: seq<byte> -> Digest)
    requires |buf| >= MESSAGE_LEN
    ensures var r := ReadFrames(buf, reject, sha1);
            var t := ReadFrames(buf[MESSAGE_LEN..], reject, sha1);
            (r.shutdown && r.callbacks == [] && r.acks == [] && |r.rest| == |buf| - MESSAGE_LEN) ||
            (r.shutdown == t.shutdown && r.rest == t.rest &&
             |r.callbacks| == |t.callbacks| + 1 && |r.acks| == |t.acks| + ACK_LEN)
  {
    ReadFrames_Tail(buf, reject, sha1);
  }

  lemma {:induction false} ReadFramesBytes(buf: seq<byte>, reject: bool, sha1: seq<byte> -> Digest)
    ensures var r := ReadFrames(buf, reject, sha1);
            |buf| - |r.rest| == Blocks(|r.callbacks|, MESSAGE_LEN) + (if r.shutdown then MESSAGE_LEN else 0)
    decreases |buf|
  {
    if |buf| >= MESSAGE_LEN {
      ReadFramesStep(buf, reject, sha1);
      ReadFramesBytes(buf[MESSAGE_LEN..], reject, sha1);
    }
  }

  lemma {:induction false} ReadFramesAcks(buf: seq<byte>, reject: bool, sha1: seq<byte> -> Digest)
    ensures var r := ReadFrames(buf, reject, sha1);
            |r.acks| == Blocks(|r.callbacks|, ACK_LEN)
    decreases |buf|
  {
    if |buf| >= MESSAGE_LEN {
      var t := ReadFrames(buf[MESSAGE_LEN..], reject, sha1);
      ReadFramesStep(buf, reject, sha1);
      ReadFramesAcks(buf[MESSAGE_LEN..], reject, sha1);
      assert Blocks(|t.callbacks| + 1, ACK_LEN) == ACK_LEN + Blocks(|t.callbacks|, ACK_LEN);
    }
  }

  /** Whole frames are consumed; each good one made one callback and one
      30-byte ack, and a bad one (the last consumed) made neither. */
  lemma ReadFramesCounts(buf: seq<byte>, reject: bool, sha1: seq<byte> -> Digest)
    ensures var r := ReadFrames(buf, reject, sha1);
            |buf| - |r.rest| == (|r.callbacks| + (if r.shutdown then 1 else 0)) * MESSAGE_LEN &&
            |r.acks| == |r.callbacks| * ACK_LEN
  {
    var r := ReadFrames(buf, reject, sha1);
    var frames := |r.callbacks| + (if r.shutdown then 1 else 0);
    ReadFramesBytes(buf, reject, sha1);
    ReadFramesAcks(buf, reject, sha1);
    assert Blocks(frames, MESSAGE_LEN) == Blocks(|r.callbacks|, MESSAGE_LEN) + (if r.shutdown then MESSAGE_LEN else 0);
    BlocksIsProduct(frames, MESSAGE_LEN);
    BlocksIsProduct(|r.callbacks|, ACK_LEN);
  }

  /** A packet framed the way an MMTP client sends it. */
  function SendFrame(pkt: seq<byte>, sha1: seq<byte> -> Digest): (f: seq<byte>)
    requires |pkt| == PACKET_LEN
    ensures |f| == MESSAGE_LEN
  {
    SEND_CONTROL + pkt + sha1(pkt + SEND_SUFFIX)
  }

  function SendFrames(pkts: seq<seq<byte>>, sha1: seq<byte> -> Digest): (s: seq<byte>)
    requires forall k :: 0 <= k < |pkts| ==> |pkts[k]| == PACKET_LEN
  {
    if pkts == [] then [] else SendFrame(pkts[0], sha1) + SendFrames(pkts[1..], sha1)
  }

  function Receipts(pkts: seq<seq<byte>>, sha1: seq<byte> -> Digest): seq<byte>
  {
    if pkts == [] then [] else RECEIVED_CONTROL + sha1(pkts[0] + RECEIVED_SUFFIX) + Receipts(pkts[1..], sha1)
  }

  function AllConsumed(pkts: seq<seq<byte>>): seq<Callback>
  {
    if pkts == [] then [] else [Consumed(pkts[0])] + AllConsumed(pkts[1..])
  }

  lemma SendFrameChecks(pkt: seq<byte>, sha1: seq<byte> -> Digest)
    requires |pkt| == PACKET_LEN
    ensures CheckFrame(SendFrame(pkt, sha1), false, sha1) ==
              GoodFrame(Consumed(pkt), RECEIVED_CONTROL + sha1(pkt + RECEIVED_SUFFIX))
  {
    var f := SendFrame(pkt, sha1);
    assert f[..CONTROL_LEN] == SEND_CONTROL;
    assert f[CONTROL_LEN..MESSAGE_LEN - DIGEST_LEN] == pkt;
    assert f[MESSAGE_LEN - DIGEST_LEN..] == sha1(pkt + SEND_SUFFIX);
    assert SEND_CONTROL != JUNK_CONTROL by {
      assert SEND_CONTROL[0] != JUNK_CONTROL[0];
    }
  }

  /** A padding frame framed the way an MMTP client sends it. */
  function JunkFrame(pkt: seq<byte>, sha1: seq<byte> -> Digest): (f: seq<byte>)
    requires |pkt| == PACKET_LEN
    ensures |f| == MESSAGE_LEN
  {
    JUNK_CONTROL + pkt + sha1(pkt + JUNK_SUFFIX)
  }

  /** Padding is accepted in either mode: it reaches no consumer and is
      acknowledged with "RECEIVED\r\n" + sha1(pkt + "RECEIVED JUNK"). */
  lemma JunkFrameChecks(pkt: seq<byte>, reject: bool, sha1: seq<byte> -> Digest)
    requires |pkt| == PACKET_LEN
    ensures CheckFrame(JunkFrame(pkt, sha1), reject, sha1) ==
              GoodFrame(JunkReceived, RECEIVED_CONTROL + sha1(pkt + RECEIVED_JUNK_SUFFIX))
  {
    var f := JunkFrame(pkt, sha1);
    assert f[..CONTROL_LEN] == JUNK_CONTROL;
    assert f[CONTROL_LEN..MESSAGE_LEN - DIGEST_LEN] == pkt;
    assert f[MESSAGE_LEN - DIGEST_LEN..] == sha1(pkt + JUNK_SUFFIX);
  }

  /** In reject mode a well-formed packet is refused: the reject callback
      is made and the ack is "REJECTED\r\n" + sha1(pkt + "REJECTED"). */
  lemma RejectedFrameChecks(pkt: seq<byte>, sha1: seq<byte> -> Digest)
    requires |pkt| == PACKET_LEN
    ensures CheckFrame(SendFrame(pkt, sha1), true, sha1) ==
              GoodFrame(PacketRejected, REJECTED_CONTROL + sha1(pkt + REJECTED_SUFFIX))
  {
    var f := SendFrame(pkt, sha1);
    assert f[..CONTROL_LEN] == SEND_CONTROL;
    assert f[CONTROL_LEN..MESSAGE_LEN - DIGEST_LEN] == pkt;
    assert f[MESSAGE_LEN - DIGEST_LEN..] == sha1(pkt + SEND_SUFFIX);
    assert SEND_CONTROL != JUNK_CONTROL by {
      assert SEND_CONTROL[0] != JUNK_CONTROL[0];
    }
  }

  /** Packets framed as a client sends them are all handed to the consumer,
      in order, each acknowledged with its receipt, and nothing is left. */
  lemma {:induction false} SendFramesAccepted(pkts: seq<seq<byte>>, sha1: seq<byte> -> Digest)
    requires forall k :: 0 <= k < |pkts| ==> |pkts[k]| == PACKET_LEN
    ensures ReadFrames(SendFrames(pkts, sha1), false, sha1) ==
              ReadOutcome([], Receipts(pkts, sha1), AllConsumed(pkts), false)
  {
    if pkts != [] {
      var s := SendFrames(pkts, sha1);
      var f := SendFrame(pkts[0], sha1);
      assert s[..MESSAGE_LEN] == f;
      assert s[MESSAGE_LEN..] == SendFrames(pkts[1..], sha1);
      SendFrameChecks(pkts[0], sha1);
      SendFramesAccepted(pkts[1..], sha1);
    }
  }

  /** No callback hands a packet to the consumer. */
  predicate NoneConsumed(cbs: seq<Callback>)
  {
    forall k :: 0 <= k < |cbs| ==> !cbs[k].Consumed?
  }

  /** In reject mode no packet ever reaches the consumer. */
  lemma {:induction false} RejectModeConsumesNothing(buf: seq<byte>, sha1: seq<byte> -> Digest)
    ensures NoneConsumed(ReadFrames(buf, true, sha1).callbacks)
    decreases |buf|
  {
    if |buf| >= MESSAGE_LEN {
      ReadFrames_Tail(buf, true, sha1);
      RejectModeConsumesNothing(buf[MESSAGE_LEN..], sha1);
      var v := CheckFrame(buf[..MESSAGE_LEN], true, sha1);
      var r := ReadFrames(buf[MESSAGE_LEN..], true, sha1);
      if v.GoodFrame? {
        assert !v.callback.Consumed?;
        var cbs := [v.callback] + r.callbacks;
        forall k | 0 <= k < |cbs|
          ensures !cbs[k].Consumed?
        {
          if k > 0 {
            assert cbs[k] == r.callbacks[k - 1];
          }
        }
      }
    }
  }

  lemma ReadFrames_Tail(buf: seq<byte>, reject: bool, sha1: seq<byte> -> Digest)
    requires |buf| >= MESSAGE_LEN
    ensures var v := CheckFrame(buf[..MESSAGE_LEN], reject, sha1);
            var r := ReadFrames(buf[MESSAGE_LEN..], reject, sha1);
            ReadFrames(buf, reject, sha1) ==
              if v.BadFrame? then ReadOutcome(buf[MESSAGE_LEN..], [], [], true)
              else ReadOutcome(r.rest, v.ack + r.acks, [v.callback] + r.callbacks, r.shutdown)
  {
  }

  /** A frame with an unknown control string is refused whatever its
      digest. */
  lemma UnknownControlRefused(data: seq<byte>, reject: bool, sha1: seq<byte> -> Digest)
    requires |data| == MESSAGE_LEN
    requires data[..CONTROL_LEN] != SEND_CONTROL && data[..CONTROL_LEN] != JUNK_CONTROL
    ensures CheckFrame(data, reject, sha1) == BadFrame
  {
  }

  /** onDataRead's loop so far: what is left of the buffer, read on, gives
      what the whole buffer gives, after the acks and callbacks made. */
  ghost predicate Progress(buf: seq<byte>, out: seq<byte>, cbs: seq<Callback>, reject: bool,
                           sha1: seq<byte> -> Digest, total: ReadOutcome, out0: seq<byte>, cbs0: seq<Callback>)
  {
    var now := ReadFrames(buf, reject, sha1);
    now.rest == total.rest && now.shutdown == total.shutdown &&
    out + now.acks == out0 + total.acks && cbs + now.callbacks == cbs0 + total.callbacks
  }

  /** A good frame taken keeps the loop's progress. */
  lemma ProgressGood(buf: seq<byte>, out: seq<byte>, cbs: seq<Callback>, reject: bool,
                     sha1: seq<byte> -> Digest, total: ReadOutcome, out0: seq<byte>, cbs0: seq<Callback>,
                     v: FrameVerdict)
    requires |buf| >= MESSAGE_LEN && v == CheckFrame(buf[..MESSAGE_LEN], reject, sha1) && v.GoodFrame?
    requires Progress(buf, out, cbs, reject, sha1, total, out0, cbs0)
    ensures Progress(buf[MESSAGE_LEN..], out + v.ack, cbs + [v.callback], reject, sha1, total, out0, cbs0)
  {
    var r := ReadFrames(buf[MESSAGE_LEN..], reject, sha1);
    assert ReadFrames(buf, reject, sha1) == ReadOutcome(r.rest, v.ack + r.acks, [v.callback] + r.callbacks, r.shutdown) by {
      ReadFrames_Tail(buf, reject, sha1);
    }
    assert out + v.ack + r.acks == out + (v.ack + r.acks);
    assert cbs + [v.callback] + r.callbacks == cbs + ([v.callback] + r.callbacks);
  }

  /** A bad frame ends the loop where the whole buffer's reading ends. */
  lemma ProgressBad(buf: seq<byte>, out: seq<byte>, cbs: seq<Callback>, reject: bool,
                    sha1: seq<byte> -> Digest, total: ReadOutcome, out0: seq<byte>, cbs0: seq<Callback>)
    requires |buf| >= MESSAGE_LEN && CheckFrame(buf[..MESSAGE_LEN], reject, sha1).BadFrame?
    requires Progress(buf, out, cbs, reject, sha1, total, out0, cbs0)
    ensures total.shutdown && buf[MESSAGE_LEN..] == total.rest &&
            out == out0 + total.acks && cbs == cbs0 + total.callbacks
  {
    ReadFrames_Tail(buf, reject, sha1);
    assert out + [] == out && cbs + [] == cbs;
  }

  /** Once less than a frame is left, the loop has done what the whole
      buffer's reading does. */
  lemma ProgressDone(buf: seq<byte>, out: seq<byte>, cbs: seq<Callback>, reject: bool,
                     sha1: seq<byte> -> Digest, total: ReadOutcome, out0: seq<byte>, cbs0: seq<Callback>)
    requires |buf| < MESSAGE_LEN
    requires Progress(buf, out, cbs, reject, sha1, total, out0, cbs0)
    ensures !total.shutdown && buf == total.rest && out == out0 + total.acks && cbs == cbs0 + total.callbacks
  {
    assert out + [] == out && cbs + [] == cbs;
  }

  class ServerConnection {
    var inbuf: seq<byte>
    var outbuf: seq<byte>
    var reading: bool
    var shuttingDown: bool
    var protocol: Option<seq<byte>>
    var rejectPackets: bool
    var onRead: ReadHandler
    var onWrite: WriteHandler
    var callbacks: seq<Callback>

    /** Data frames are only read, and the version reply only completes,
        once version 0.3 was agreed. */
    ghost predicate Valid()
      reads this
    {
      (onRead.DataReadHandler? ==> protocol == Some(VERSION_03)) &&
      (onWrite.ProtocolWrittenHandler? ==> protocol == Some(VERSION_03))
    }

    /** A newly accepted connection: nothing negotiated, nothing buffered. */
    constructor (reject: bool)
      ensures Valid()
      ensures inbuf == [] && outbuf == [] && callbacks == []
      ensures !reading && !shuttingDown && protocol.None?
      ensures rejectPackets == reject && onRead.NotReading? && onWrite.NoWriteHandler?
    {
      inbuf, outbuf, callbacks := [], [], [];
      reading, shuttingDown := false, false;
      protocol := None;
      rejectPackets := reject;
      onRead, onWrite := NotReading, NoWriteHandler;
    }

    /** onConnected: once TLS is up, read the protocol line. */
    method OnConnected()
      requires Valid()
      modifies this
      ensures Valid()
      ensures onRead.ReadProtocolHandler? && reading
      ensures inbuf == old(inbuf) && outbuf == old(outbuf) && callbacks == old(callbacks)
      ensures shuttingDown == old(shuttingDown) && protocol == old(protocol)
      ensures rejectPackets == old(rejectPackets) && onWrite == old(onWrite)
    {
      onRead := ReadProtocolHandler;
      reading := true;
    }

    /** readProtocol: wait for a whole line; an overlong one shuts down.  A
        line stops reading; it must match PROTOCOL_RE and list 0.3 among its
        comma-separated versions, and then "MMTP 0.3\r\n" is queued. */
    method ReadProtocol(line: ProtocolLine)
      requires Valid()
      // getInbufLine hands back a line from the front of the inbound buffer
      requires line.Line? ==> line.s <= inbuf
      modifies this
      ensures Valid()
      ensures line.NoLine? ==>
                reading == old(reading) && shuttingDown == old(shuttingDown) &&
                protocol == old(protocol) && outbuf == old(outbuf) && onWrite == old(onWrite)
      ensures line.Overlong? ==>
                shuttingDown && reading == old(reading) &&
                protocol == old(protocol) && outbuf == old(outbuf) && onWrite == old(onWrite)
      ensures line.Line? ==> !reading
      ensures line.Line? ==>
                var m := MatchProtocol(line.s);
                if m.Some? && VERSION_03 in Split(m.value, COMMA) then
                  protocol == Some(VERSION_03) && onWrite.ProtocolWrittenHandler? &&
                  outbuf == old(outbuf) + MMTP_PREFIX + VERSION_03 + CRLF &&
                  shuttingDown == old(shuttingDown)
                else
                  shuttingDown && protocol == old(protocol) && outbuf == old(outbuf) && onWrite == old(onWrite)
      // clear=1: a line is taken off the inbound buffer, which then holds
      // only what followed it
      ensures line.Line? ==> inbuf == old(inbuf)[|line.s|..]
      ensures !line.Line? ==> inbuf == old(inbuf)
      ensures callbacks == old(callbacks)
      ensures rejectPackets == old(rejectPackets) && onRead == old(onRead)
    {
      match line
      case NoLine =>
        return;
      case Overlong =>
        shuttingDown := true;
        return;
      case Line(s) =>
        inbuf := inbuf[|s|..];
        reading := false;
        var m := MatchProtocol(s);
        if m.None? {
          shuttingDown := true;
          return;
        }
        var protocols := Split(m.value, COMMA);
        if VERSION_03 in protocols {
          protocol := Some(VERSION_03);
          onWrite := ProtocolWrittenHandler;
          outbuf := outbuf + MMTP_PREFIX + VERSION_03 + CRLF;
          return;
        }
        shuttingDown := true;
    }

    /** protocolWritten: the version reply is out; from now on data frames
        are read. */
    method ProtocolWritten()
      requires Valid()
      requires onWrite.ProtocolWrittenHandler?
      modifies this
      ensures Valid()
      ensures onRead.DataReadHandler? && onWrite.DataWrittenHandler? && reading
      ensures inbuf == old(inbuf) && outbuf == old(outbuf) && callbacks == old(callbacks)
      ensures shuttingDown == old(shuttingDown) && protocol == old(protocol)
      ensures rejectPackets == old(rejectPackets)
    {
      onRead := DataReadHandler;
      onWrite := DataWrittenHandler;
      reading := true;
    }

    /** One pass of onDataRead's loop: take a frame off the inbound buffer;
        a bad frame starts shutdown, a good one makes its callback and then
        queues its ack. */
    method TakeFrame(sha1: seq<byte> -> Digest) returns (bad: bool)
      requires |inbuf| >= MESSAGE_LEN
      modifies this
      ensures var v := CheckFrame(old(inbuf)[..MESSAGE_LEN], old(rejectPackets), sha1);
              inbuf == old(inbuf)[MESSAGE_LEN..] && bad == v.BadFrame? &&
              (bad ==> shuttingDown && outbuf == old(outbuf) && callbacks == old(callbacks)) &&
              (!bad ==> shuttingDown == old(shuttingDown) &&
                        outbuf == old(outbuf) + v.ack && callbacks == old(callbacks) + [v.callback])
      ensures reading == old(reading) && protocol == old(protocol) && rejectPackets == old(rejectPackets)
      ensures onRead == old(onRead) && onWrite == old(onWrite)
    {
      var data := inbuf[..MESSAGE_LEN];
      inbuf := inbuf[MESSAGE_LEN..];
      var v := CheckFrame(data, rejectPackets, sha1);
      if v.BadFrame? {
        shuttingDown := true;
        return true;
      }
      callbacks := callbacks + [v.callback];
      outbuf := outbuf + v.ack;
      return false;
    }

    /** onDataRead: while a whole frame is buffered, take it and check it;
        a bad frame starts shutdown and ends the loop. */
    method OnDataRead(sha1: seq<byte> -> Digest)
      requires Valid()
      modifies this
      ensures Valid()
      ensures var r := ReadFrames(old(inbuf), old(rejectPackets), sha1);
              inbuf == r.rest && outbuf == old(outbuf) + r.acks &&
              callbacks == old(callbacks) + r.callbacks &&
              shuttingDown == (old(shuttingDown) || r.shutdown)
      ensures reading == old(reading) && protocol == old(protocol) && rejectPackets == old(rejectPackets)
      ensures onRead == old(onRead) && onWrite == old(onWrite)
    {
      ghost var total := ReadFrames(inbuf, rejectPackets, sha1);
      ghost var out0, cbs0 := outbuf, callbacks;
      while |inbuf| >= MESSAGE_LEN
        invariant Progress(inbuf, outbuf, callbacks, rejectPackets, sha1, total, out0, cbs0)
        invariant shuttingDown == old(shuttingDown)
        invariant reading == old(reading) && protocol == old(protocol) && rejectPackets == old(rejectPackets)
        invariant onRead == old(onRead) && onWrite == old(onWrite)
        decreases |inbuf|
      {
        ghost var in1, out1, cbs1 := inbuf, outbuf, callbacks;
        ghost var v := CheckFrame(in1[..MESSAGE_LEN], rejectPackets, sha1);
        var bad := TakeFrame(sha1);
        if bad {
          ProgressBad(in1, out1, cbs1, rejectPackets, sha1, total, out0, cbs0);
          return;
        }
        ProgressGood(in1, out1, cbs1, rejectPackets, sha1, total, out0, cbs0, v);
      }
      ProgressDone(inbuf, outbuf, callbacks, rejectPackets, sha1, total, out0, cbs0);
    }
  }
}
