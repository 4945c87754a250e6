/**
 * The transport of modules/netcomm.py: a message travels as its base64
 * encoding followed by a newline, over a TCP stream that recv() hands over in
 * chunks of any size. The listening loop of MsgBasedTCPClient._listen (and its
 * copy in MsgBasedTCPServerHandler.handle) collects bytes up to each newline,
 * decodes the line and passes the message to messageReceived.
 *
 * Sockets, threads and timeouts are not modelled: the bytes recv() returns are
 * a sequence of chunks, base64 is a pair of functions (a Codec), and
 * messageReceived is a Handler answering for the messages delivered so far.
 */
module NetComm {
  import opened Common

  const NEWLINE: byte := 10

  /** base64.b64encode and base64.b64decode; decode is None where b64decode raises. */
  datatype Codec = Codec(encode: seq<byte> -> seq<byte>, decode: seq<byte> -> Option<seq<byte>>)

  /**
   * What the listening loop relies on from base64 (section 4 of RFC 4648):
   * decoding undoes encoding, and the encoding alphabet has no newline.
   */
  ghost predicate Base64Like(codec: Codec) {
    forall m :: codec.decode(codec.encode(m)) == Some(m) && NEWLINE !in codec.encode(m)
  }

  /** One instance of Base64Like. */
  lemma Encoded(codec: Codec, m: seq<byte>)
    requires Base64Like(codec)
    ensures codec.decode(codec.encode(m)) == Some(m) && NEWLINE !in codec.encode(m)
  {
  }

  /**
   * messageReceived: its answer when the messages delivered so far are the
   * argument, the last of them the one just decoded. False asks the listener
   * to stop.
   */
  type Handler = seq<seq<byte>> -> bool

  /* ---------------------------------------------------------------------
   * Sending
   * --------------------------------------------------------------------- */

  /** The bytes sendMessage hands to sendall: b64encode(msg) + "\n". */
  function Frame(codec: Codec, msg: seq<byte>): seq<byte> {
    codec.encode(msg) + [NEWLINE]
  }

  /** The bytes of several messages sent one after the other. */
  function Frames(codec: Codec, ms: seq<seq<byte>>): seq<byte> {
    if ms == [] then [] else Frame(codec, ms[0]) + Frames(codec, ms[1..])
  }

  /** The lines the receiver sees for several messages: their encodings. */
  function Encodings(codec: Codec, ms: seq<seq<byte>>): (r: seq<seq<byte>>)
    ensures |r| == |ms| && forall i :: 0 <= i < |ms| ==> r[i] == codec.encode(ms[i])
  {
    if ms == [] then [] else [codec.encode(ms[0])] + Encodings(codec, ms[1..])
  }

  /** A frame holds one newline, at its end, and the line before it decodes to the message. */
  lemma FrameDecodes(codec: Codec, msg: seq<byte>)
    requires Base64Like(codec)
    ensures var f := Frame(codec, msg);
      && Find(f) == |f| - 1 && f[..Find(f)] == codec.encode(msg)
      && codec.decode(f[..Find(f)]) == Some(msg)
  {
    Encoded(codec, msg);
    var f := Frame(codec, msg);
    assert f[..|f| - 1] == codec.encode(msg);
    FindFirst(f, |f| - 1);
  }

  /** Sending one more message appends its frame. */
  lemma {:induction false} FramesAppend(codec: Codec, ms: seq<seq<byte>>, m: seq<byte>)
    ensures Frames(codec, ms + [m]) == Frames(codec, ms) + Frame(codec, m)
    decreases |ms|
  {
    if ms == [] {
      assert Frames(codec, [m]) == Frame(codec, m) + Frames(codec, []);
    } else {
      assert (ms + [m])[1..] == ms[1..] + [m];
      FramesAppend(codec, ms[1..], m);
    }
  }

  /* ---------------------------------------------------------------------
   * Receiving
   * --------------------------------------------------------------------- */

  /** buffer.find("\n"): the index of the first newline, or -1 when there is none. */
  function Find(s: seq<byte>): (r: int)
    ensures -1 <= r < |s|
    ensures r == -1 <==> NEWLINE !in s
    ensures r >= 0 ==> s[r] == NEWLINE && NEWLINE !in s[..r]
  {
    if s == [] then -1
    else if s[0] == NEWLINE then 0
    else
      var i := Find(s[1..]);
      if i == -1 then -1
      else
        assert s[..i + 1] == [s[0]] + s[1..][..i];
        i + 1
  }

  /** Find gives any index that holds the first newline. */
  lemma FindFirst(s: seq<byte>, i: nat)
    requires i < |s| && s[i] == NEWLINE && NEWLINE !in s[..i]
    ensures Find(s) == i
  {
    var r := Find(s);
    forall k | 0 <= k < i
      ensures s[k] != NEWLINE
    {
      assert s[..i][k] == s[k];
    }
    forall k | 0 <= k < r
      ensures s[k] != NEWLINE
    {
      assert s[..r][k] == s[k];
    }
  }

  /** The first newline of b1 + b2 is that of b1, or else that of b2 moved by |b1|. */
  lemma FindAppend(b1: seq<byte>, b2: seq<byte>)
    ensures Find(b1 + b2) == if Find(b1) >= 0 then Find(b1) else if Find(b2) >= 0 then |b1| + Find(b2) else -1
  {
    var s := b1 + b2;
    if Find(b1) >= 0 {
      var i := Find(b1);
      assert s[..i] == b1[..i];
      FindFirst(s, i);
    } else if Find(b2) >= 0 {
      var j := Find(b2);
      assert s[..|b1| + j] == b1 + b2[..j];
      FindFirst(s, |b1| + j);
    } else {
      forall k | 0 <= k < |s|
        ensures s[k] != NEWLINE
      {
        if k < |b1| {
          assert s[k] == b1[k];
        } else {
          assert s[k] == b2[k - |b1|];
        }
      }
    }
  }

  /**
   * The listener's state: data, the bytes after the last newline seen; the
   * lines handed to b64decode; the messages handed to messageReceived; and
   * whether listening has stopped.
   */
  datatype Listener = Listener(data: seq<byte>, lines: seq<seq<byte>>, delivered: seq<seq<byte>>, stopped: bool)

  /** The listener before the first recv. */
  function Start(): Listener {
    Listener([], [], [], false)
  }

  /**
   * The inner loop on one received buffer, with a False answer stopping the
   * listener as messageReceived's documentation says it does: each line is
   * data plus the buffer up to the newline; a line b64decode rejects is
   * dropped, any other is delivered; the bytes after the last newline are
   * kept in data.
   */
  function Scan(codec: Codec, accepts: Handler, st: Listener, buffer: seq<byte>): (r: Listener)
    ensures st.lines <= r.lines && st.delivered <= r.delivered
    ensures |r.delivered| - |st.delivered| <= |r.lines| - |st.lines|
    ensures st.stopped ==> r.stopped
    ensures r.stopped && !st.stopped ==> |r.delivered| > |st.delivered| && !accepts(r.delivered)
    decreases |buffer|, 0
  {
    var index := Find(buffer);
    if index == -1 then st.(data := st.data + buffer)
    else Deliver(codec, accepts, st, st.data + buffer[..index], buffer[index + 1..])
  }

  /**
   * One line found, the buffer going on with rest: the line is recorded and
   * data emptied; a line b64decode rejects is dropped, any other is
   * delivered, and a False answer stops listening.
   */
  function Deliver(codec: Codec, accepts: Handler, st: Listener, line: seq<byte>, rest: seq<byte>): (r: Listener)
    ensures st.lines + [line] <= r.lines && st.delivered <= r.delivered
    ensures |r.delivered| - |st.delivered| <= |r.lines| - |st.lines|
    ensures st.stopped ==> r.stopped
    ensures r.stopped && !st.stopped ==> |r.delivered| > |st.delivered| && !accepts(r.delivered)
    decreases |rest|, 1
  {
    var st1 := st.(data := [], lines := st.lines + [line]);
    match codec.decode(line)
    case None => Scan(codec, accepts, st1, rest)
    case Some(msg) =>
      var delivered := st.delivered + [msg];
      if accepts(delivered) then Scan(codec, accepts, st1.(delivered := delivered), rest)
      else st1.(delivered := delivered, stopped := true)
  }

  /** One pass of the outer loop: a stopped listener reads nothing more. */
  function Feed(codec: Codec, accepts: Handler, st: Listener, buffer: seq<byte>): Listener {
    if st.stopped then st else Scan(codec, accepts, st, buffer)
  }

  /** The listener after the chunks recv() returned, in order. */
  function Reassemble(codec: Codec, accepts: Handler, chunks: seq<seq<byte>>): Listener
    decreases |chunks|
  {
    if chunks == [] then Start()
    else Feed(codec, accepts, Reassemble(codec, accepts, chunks[..|chunks| - 1]), chunks[|chunks| - 1])
  }

  /** The bytes of the chunks one after the other. */
  function Concat(chunks: seq<seq<byte>>): seq<byte>
    decreases |chunks|
  {
    if chunks == [] then [] else Concat(chunks[..|chunks| - 1]) + chunks[|chunks| - 1]
  }

  /**
   * _listen: recv() until listening stops, splitting each buffer at its
   * newlines; a False answer from messageReceived stops listening.
   */
  method Listen(codec: Codec, accepts: Handler, chunks: seq<seq<byte>>) returns (st: Listener)
    ensures st == Reassemble(codec, accepts, chunks)
  {
    st := Start();
    var n := 0;
    while !st.stopped && n < |chunks|
      invariant 0 <= n <= |chunks|
      invariant st == Reassemble(codec, accepts, chunks[..n])
      decreases |chunks| - n
    {
      st := ScanBuffer(codec, accepts, st, chunks[n]);
      assert chunks[..n + 1][..n] == chunks[..n];
      n := n + 1;
    }
    if n < |chunks| {
      ReassembleStopped(codec, accepts, chunks, n);
    } else {
      assert chunks[..n] == chunks;
    }
  }

  /**
   * The inner loop of _listen on one received buffer: each line (data plus
   * the buffer up to the newline) is decoded and handed on, then what follows
   * the last newline is enqueued in data.
   */
  method ScanBuffer(codec: Codec, accepts: Handler, st: Listener, received: seq<byte>) returns (r: Listener)
    requires !st.stopped
    ensures r == Scan(codec, accepts, st, received)
  {
    var data, lines, delivered := st.data, st.lines, st.delivered;
    var listening := true;
    var buffer := received;
    var index := Find(buffer);
    while index > -1 && listening
      invariant index == Find(buffer)
      invariant listening ==> Scan(codec, accepts, Listener(data, lines, delivered, false), buffer)
                              == Scan(codec, accepts, st, received)
      invariant !listening ==> Listener(data, lines, delivered, true) == Scan(codec, accepts, st, received)
      decreases |buffer| + (if listening then 1 else 0)
    {
      ScanLine(codec, accepts, Listener(data, lines, delivered, false), buffer, index);
      data := data + buffer[..index];
      var msg := codec.decode(data);
      lines := lines + [data];
      if msg.Some? {
        delivered := delivered + [msg.value];
        listening := accepts(delivered);
      }
      data := [];
      if listening {
        buffer := buffer[index + 1..];
        index := Find(buffer);
      }
    }
    if listening {
      data := data + buffer;
    }
    r := Listener(data, lines, delivered, !listening);
  }

  /** Once stopped, the listener ignores every later chunk. */
  lemma {:induction false} ReassembleStopped(codec: Codec, accepts: Handler, chunks: seq<seq<byte>>, n: nat)
    requires n <= |chunks| && Reassemble(codec, accepts, chunks[..n]).stopped
    ensures Reassemble(codec, accepts, chunks) == Reassemble(codec, accepts, chunks[..n])
    decreases |chunks| - n
  {
    if n < |chunks| {
      assert chunks[..n + 1][..n] == chunks[..n];
      ReassembleStopped(codec, accepts, chunks, n + 1);
    } else {
      assert chunks[..n] == chunks;
    }
  }

  /* ---------------------------------------------------------------------
   * Properties of the listening loop
   * --------------------------------------------------------------------- */

  /** Scanning two buffers one after the other is scanning their concatenation: where recv() splits the stream does not matter. */
  lemma {:induction false} ScanAppend(codec: Codec, accepts: Handler, st: Listener, b1: seq<byte>, b2: seq<byte>)
    requires !st.stopped
    ensures Feed(codec, accepts, Scan(codec, accepts, st, b1), b2) == Scan(codec, accepts, st, b1 + b2)
    decreases |b1|, 0
  {
    FindAppend(b1, b2);
    var i := Find(b1);
    if i == -1 {
      ScanAppendTail(codec, accepts, st, b1, b2);
    } else {
      ScanLine(codec, accepts, st, b1, i);
      ScanLine(codec, accepts, st, b1 + b2, i);
      SliceBefore(b1, b2, i);
      DeliverAppend(codec, accepts, st, st.data + b1[..i], b1[i + 1..], b2);
    }
  }

  /** Scan at the first newline of the buffer. */
  lemma ScanLine(codec: Codec, accepts: Handler, st: Listener, buffer: seq<byte>, i: nat)
    requires i < |buffer| && Find(buffer) == i
    ensures Scan(codec, accepts, st, buffer) == Deliver(codec, accepts, st, st.data + buffer[..i], buffer[i + 1..])
  {
  }

  /** ScanLine, with the line and the rest named. */
  lemma ScanLineAt(codec: Codec, accepts: Handler, st: Listener, buffer: seq<byte>, i: nat, line: seq<byte>, rest: seq<byte>)
    requires i < |buffer| && Find(buffer) == i && line == st.data + buffer[..i] && rest == buffer[i + 1..]
    ensures Scan(codec, accepts, st, buffer) == Deliver(codec, accepts, st, line, rest)
  {
    ScanLine(codec, accepts, st, buffer, i);
  }

  /** ScanAppend when the first buffer has no newline: its bytes wait in data for the second. */
  lemma ScanAppendTail(codec: Codec, accepts: Handler, st: Listener, b1: seq<byte>, b2: seq<byte>)
    requires !st.stopped && Find(b1) == -1
    ensures Feed(codec, accepts, Scan(codec, accepts, st, b1), b2) == Scan(codec, accepts, st, b1 + b2)
  {
    FindAppend(b1, b2);
    var st1 := st.(data := st.data + b1);
    var j := Find(b2);
    if j >= 0 {
      var line, rest := st.data + b1 + b2[..j], b2[j + 1..];
      assert Find(b1 + b2) == |b1| + j;
      SliceAfter(b1, b2, j);
      AppendAssoc(st.data, b1, b2[..j]);
      calc {
        Feed(codec, accepts, Scan(codec, accepts, st, b1), b2);
        { KeepsTail(codec, accepts, st, b1); }
        Scan(codec, accepts, st1, b2);
        { ScanLineAt(codec, accepts, st1, b2, j, line, rest); }
        Deliver(codec, accepts, st1, line, rest);
        { DeliverIgnoresData(codec, accepts, st, st.data + b1, line, rest); }
        Deliver(codec, accepts, st, line, rest);
        { ScanLineAt(codec, accepts, st, b1 + b2, |b1| + j, line, rest); }
        Scan(codec, accepts, st, b1 + b2);
      }
    } else {
      calc {
        Feed(codec, accepts, Scan(codec, accepts, st, b1), b2);
        { KeepsTail(codec, accepts, st, b1); }
        Scan(codec, accepts, st1, b2);
        { KeepsTail(codec, accepts, st1, b2); }
        st.(data := st.data + b1 + b2);
        { AppendAssoc(st.data, b1, b2); }
        st.(data := st.data + (b1 + b2));
        { KeepsTail(codec, accepts, st, b1 + b2); }
        Scan(codec, accepts, st, b1 + b2);
      }
    }
  }

  /** The line step followed by more bytes is the line step on the longer rest. */
  lemma {:induction false} DeliverAppend(codec: Codec, accepts: Handler, st: Listener, line: seq<byte>, r1: seq<byte>, b2: seq<byte>)
    requires !st.stopped
    ensures Feed(codec, accepts, Deliver(codec, accepts, st, line, r1), b2) == Deliver(codec, accepts, st, line, r1 + b2)
    decreases |r1|, 1
  {
    var st1 := st.(data := [], lines := st.lines + [line]);
    match codec.decode(line)
    case None =>
      ScanAppend(codec, accepts, st1, r1, b2);
    case Some(msg) =>
      if accepts(st.delivered + [msg]) {
        ScanAppend(codec, accepts, st1.(delivered := st.delivered + [msg]), r1, b2);
      }
  }

  /** The line step does not look at data: it starts the line afresh. */
  lemma DeliverIgnoresData(codec: Codec, accepts: Handler, st: Listener, d: seq<byte>, line: seq<byte>, rest: seq<byte>)
    ensures Deliver(codec, accepts, st.(data := d), line, rest) == Deliver(codec, accepts, st, line, rest)
  {
    assert st.(data := d).(data := [], lines := st.lines + [line]) == st.(data := [], lines := st.lines + [line]);
  }

  lemma SliceAfter<T>(b1: seq<T>, b2: seq<T>, j: nat)
    requires j < |b2|
    ensures (b1 + b2)[..|b1| + j] == b1 + b2[..j] && (b1 + b2)[|b1| + j + 1..] == b2[j + 1..]
  {
  }

  lemma SliceBefore<T>(b1: seq<T>, b2: seq<T>, i: nat)
    requires i < |b1|
    ensures (b1 + b2)[..i] == b1[..i] && (b1 + b2)[i + 1..] == b1[i + 1..] + b2
  {
  }

  /** Whatever the chunking, the listener ends as if it had received the whole stream at once. */
  lemma {:induction false} ReassembleConcat(codec: Codec, accepts: Handler, chunks: seq<seq<byte>>)
    ensures Reassemble(codec, accepts, chunks) == Scan(codec, accepts, Start(), Concat(chunks))
    decreases |chunks|
  {
    if chunks == [] {
      assert Find([]) == -1;
      assert Start().data + [] == Start().data;
    } else {
      var init := chunks[..|chunks| - 1];
      ReassembleConcat(codec, accepts, init);
      ScanAppend(codec, accepts, Start(), Concat(init), chunks[|chunks| - 1]);
    }
  }

  /** messageReceived answers True to each message of ms, delivered after the messages prior. */
  ghost predicate AcceptsEach(accepts: Handler, prior: seq<seq<byte>>, ms: seq<seq<byte>>) {
    forall k :: 0 < k <= |ms| ==> accepts(prior + ms[..k])
  }

  /** AcceptsEach, one message at a time. */
  lemma AcceptsFirst(accepts: Handler, prior: seq<seq<byte>>, ms: seq<seq<byte>>)
    requires AcceptsEach(accepts, prior, ms) && ms != []
    ensures accepts(prior + [ms[0]]) && AcceptsEach(accepts, prior + [ms[0]], ms[1..])
  {
    assert ms[..1] == [ms[0]];
    forall k | 0 < k <= |ms[1..]|
      ensures accepts(prior + [ms[0]] + ms[1..][..k])
    {
      assert prior + [ms[0]] + ms[1..][..k] == prior + ms[..k + 1];
    }
  }

  /** A buffer that starts with a line: where Find puts its newline, the line and what follows. */
  lemma SplitAtNewline(text: seq<byte>, rest: seq<byte>)
    requires NEWLINE !in text
    ensures var b := text + [NEWLINE] + rest;
      Find(b) == |text| && b[..|text|] == text && b[|text| + 1..] == rest
  {
    var b := text + [NEWLINE] + rest;
    assert b[..|text|] == text;
    FindFirst(b, |text|);
    assert b[|text| + 1..] == rest;
  }

  /** A line that b64decode accepts and messageReceived answers True to is delivered, and the next line is read. */
  lemma DeliversAccepted(codec: Codec, accepts: Handler, st: Listener, text: seq<byte>, rest: seq<byte>, msg: seq<byte>)
    requires NEWLINE !in text && codec.decode(st.data + text) == Some(msg)
    requires accepts(st.delivered + [msg])
    ensures Scan(codec, accepts, st, text + [NEWLINE] + rest)
            == Scan(codec, accepts, st.(data := [], lines := st.lines + [st.data + text], delivered := st.delivered + [msg]), rest)
  {
    SplitAtNewline(text, rest);
  }

  /** Concatenation is associative (a helper for the lemmas below). */
  lemma AppendAssoc<T>(a: seq<T>, b: seq<T>, c: seq<T>)
    ensures a + b + c == a + (b + c)
  {
  }

  /** The first frame of several is delivered when messageReceived answers True to it. */
  lemma ScanFirstFrame(codec: Codec, accepts: Handler, st: Listener, ms: seq<seq<byte>>)
    requires Base64Like(codec) && st.data == [] && ms != []
    requires accepts(st.delivered + [ms[0]])
    ensures Scan(codec, accepts, st, Frames(codec, ms))
            == Scan(codec, accepts, st.(lines := st.lines + [codec.encode(ms[0])], delivered := st.delivered + [ms[0]]),
                    Frames(codec, ms[1..]))
  {
    var e := codec.encode(ms[0]);
    Encoded(codec, ms[0]);
    assert Frames(codec, ms) == e + [NEWLINE] + Frames(codec, ms[1..]);
    assert st.data + e == e;
    DeliversAccepted(codec, accepts, st, e, Frames(codec, ms[1..]), ms[0]);
  }

  /** The frames of ms, scanned with nothing pending, are each decoded and delivered, while messageReceived keeps answering True. */
  lemma {:induction false} ScanFrames(codec: Codec, accepts: Handler, st: Listener, ms: seq<seq<byte>>)
    requires Base64Like(codec) && st.data == [] && !st.stopped
    requires AcceptsEach(accepts, st.delivered, ms)
    ensures Scan(codec, accepts, st, Frames(codec, ms))
            == st.(lines := st.lines + Encodings(codec, ms), delivered := st.delivered + ms)
    decreases |ms|
  {
    if ms == [] {
      assert Find([]) == -1;
      assert st.lines + Encodings(codec, ms) == st.lines;
      assert st.delivered + ms == st.delivered;
    } else {
      var m := ms[0];
      var e := codec.encode(m);
      AcceptsFirst(accepts, st.delivered, ms);
      ScanFirstFrame(codec, accepts, st, ms);
      var st1 := st.(lines := st.lines + [e], delivered := st.delivered + [m]);
      calc {
        Scan(codec, accepts, st, Frames(codec, ms));
        Scan(codec, accepts, st1, Frames(codec, ms[1..]));
        { ScanFrames(codec, accepts, st1, ms[1..]); }
        st1.(lines := st1.lines + Encodings(codec, ms[1..]), delivered := st1.delivered + ms[1..]);
        { assert Encodings(codec, ms) == [e] + Encodings(codec, ms[1..]);
          AppendAssoc(st.lines, [e], Encodings(codec, ms[1..]));
          assert ms == [m] + ms[1..];
          AppendAssoc(st.delivered, [m], ms[1..]); }
        st.(lines := st.lines + Encodings(codec, ms), delivered := st.delivered + ms);
      }
    }
  }

  /**
   * The round trip: messages framed by sendMessage, sent one after the other
   * and received in any chunking, are each delivered once, in order, while
   * messageReceived answers True; nothing is left pending.
   */
  lemma RoundTrip(codec: Codec, accepts: Handler, ms: seq<seq<byte>>, chunks: seq<seq<byte>>)
    requires Base64Like(codec) && Concat(chunks) == Frames(codec, ms)
    requires forall k :: 0 < k <= |ms| ==> accepts(ms[..k])
    ensures Reassemble(codec, accepts, chunks) == Listener([], Encodings(codec, ms), ms, false)
  {
    ReassembleConcat(codec, accepts, chunks);
    forall k | 0 < k <= |ms|
      ensures accepts(Start().delivered + ms[..k])
    {
      assert Start().delivered + ms[..k] == ms[..k];
    }
    ScanFrames(codec, accepts, Start(), ms);
  }

  /** A line b64decode rejects is dropped: data is cleared and the next line is read. */
  lemma DropsMalformed(codec: Codec, accepts: Handler, st: Listener, text: seq<byte>, rest: seq<byte>)
    requires NEWLINE !in text && codec.decode(st.data + text) == None
    ensures Scan(codec, accepts, st, text + [NEWLINE] + rest)
            == Scan(codec, accepts, st.(data := [], lines := st.lines + [st.data + text]), rest)
  {
    SplitAtNewline(text, rest);
  }

  /** Bytes with no newline are only kept, to be prefixed to the next line. */
  lemma KeepsTail(codec: Codec, accepts: Handler, st: Listener, text: seq<byte>)
    requires NEWLINE !in text
    ensures Scan(codec, accepts, st, text) == st.(data := st.data + text)
  {
  }

  /* ---------------------------------------------------------------------
   * The loop as written
   * --------------------------------------------------------------------- */

  /**
   * The inner loop as the source has it: after a False answer, the break in
   * the finally clause leaves only the inner loop, skipping the reset of data
   * and the slicing of buffer, so data becomes the line just handled plus
   * the whole buffer; shutdown(SHUT_RDWR) names an unimported constant, and
   * the break discards that error. Listening goes on.
   */
  function ScanAsWritten(codec: Codec, accepts: Handler, st: Listener, buffer: seq<byte>): (r: Listener)
    ensures st.lines <= r.lines && st.delivered <= r.delivered
    ensures r.stopped == st.stopped
    decreases |buffer|
  {
    var index := Find(buffer);
    if index == -1 then st.(data := st.data + buffer)
    else
      var line := st.data + buffer[..index];
      var rest := buffer[index + 1..];
      match codec.decode(line)
      case None => ScanAsWritten(codec, accepts, st.(data := [], lines := st.lines + [line]), rest)
      case Some(msg) =>
        var delivered := st.delivered + [msg];
        if accepts(delivered) then
          ScanAsWritten(codec, accepts, st.(data := [], lines := st.lines + [line], delivered := delivered), rest)
        else
          st.(data := line + buffer, lines := st.lines + [line], delivered := delivered)
  }

  /** _listen as written: every chunk is scanned, whatever messageReceived answered. */
  function ReassembleAsWritten(codec: Codec, accepts: Handler, chunks: seq<seq<byte>>): Listener
    decreases |chunks|
  {
    if chunks == [] then Start()
    else ScanAsWritten(codec, accepts, ReassembleAsWritten(codec, accepts, chunks[..|chunks| - 1]), chunks[|chunks| - 1])
  }

  /** While messageReceived answers True the loop as written and the stopping loop agree. */
  lemma {:induction false} ScanAgrees(codec: Codec, accepts: Handler, st: Listener, buffer: seq<byte>)
    requires !Scan(codec, accepts, st, buffer).stopped
    ensures ScanAsWritten(codec, accepts, st, buffer) == Scan(codec, accepts, st, buffer)
    decreases |buffer|
  {
    var index := Find(buffer);
    if index >= 0 {
      var line := st.data + buffer[..index];
      var rest := buffer[index + 1..];
      match codec.decode(line)
      case None =>
        ScanAgrees(codec, accepts, st.(data := [], lines := st.lines + [line]), rest);
      case Some(msg) =>
        var delivered := st.delivered + [msg];
        ScanAgrees(codec, accepts, st.(data := [], lines := st.lines + [line], delivered := delivered), rest);
    }
  }

  /** ... and so do the whole listeners, so the round trip holds for the source as written. */
  lemma {:induction false} ReassembleAgrees(codec: Codec, accepts: Handler, chunks: seq<seq<byte>>)
    requires !Reassemble(codec, accepts, chunks).stopped
    ensures ReassembleAsWritten(codec, accepts, chunks) == Reassemble(codec, accepts, chunks)
    decreases |chunks|
  {
    if chunks != [] {
      var init := chunks[..|chunks| - 1];
      var last := chunks[|chunks| - 1];
      var st := Reassemble(codec, accepts, init);
      assert !st.stopped;
      ReassembleAgrees(codec, accepts, init);
      ScanAgrees(codec, accepts, st, last);
    }
  }

  /**
   * The source as written does not stop: with messageReceived answering
   * False to a first message sent twice, the stopping loop hands one line to
   * b64decode and stops, while the loop as written reads the second chunk
   * and hands b64decode a line made of the first line, the whole first
   * buffer and the second line, which was never sent.
   */
  lemma AsWrittenKeepsListening(codec: Codec, m: seq<byte>)
    requires Base64Like(codec)
    ensures var chunks := [Frame(codec, m), Frame(codec, m)];
      var refuse: Handler := d => false;
      var e := codec.encode(m);
      && Reassemble(codec, refuse, chunks) == Listener([], [e], [m], true)
      && ReassembleAsWritten(codec, refuse, chunks).lines == [e, e + e + [NEWLINE] + e]
  {
    var refuse: Handler := d => false;
    var e := codec.encode(m);
    var f := Frame(codec, m);
    Encoded(codec, m);
    SplitAtNewline(e, []);
    assert f == e + [NEWLINE] + [];
    var none: seq<seq<byte>> := [];
    assert [f, f][..1] == [f] && [f][..0] == none;
    assert Start().data + e == e;
    // the stopping loop: the first line is refused and nothing more is read
    ScanLine(codec, refuse, Start(), f, |e|);
    assert Reassemble(codec, refuse, [f]) == Listener([], [e], [m], true);
    // as written: the first line is refused, and data keeps it with the whole buffer
    var st := ScanAsWritten(codec, refuse, Start(), f);
    assert st == Listener(e + f, [e], [m], false);
    assert ReassembleAsWritten(codec, refuse, [f]) == st;
    var line := st.data + e;
    assert line == e + e + [NEWLINE] + e;
    match codec.decode(line)
    case None =>
      assert ScanAsWritten(codec, refuse, st, f) == ScanAsWritten(codec, refuse, st.(data := [], lines := [e, line]), []);
    case Some(msg) =>
  }

  /* ---------------------------------------------------------------------
   * The endpoints
   * --------------------------------------------------------------------- */

  /**
   * MsgBasedTCPClient, as far as sending goes: wire is what sendall has
   * written, the frames of the messages sent so far.
   */
  class Client {
    const codec: Codec
    var wire: seq<byte>
    ghost var sent: seq<seq<byte>>

    ghost predicate Valid()
      reads this
    {
      wire == Frames(codec, sent)
    }

    constructor (codec: Codec)
      ensures Valid() && this.codec == codec && sent == []
    {
      this.codec := codec;
      wire := [];
      sent := [];
    }

    /** sendMessage: sendall of b64encode(msg) + "\n"; True unless sendall raises (failed). */
    method SendMessage(msg: seq<byte>, failed: bool) returns (ok: bool)
      requires Valid()
      modifies this
      ensures Valid() && ok == !failed
      ensures sent == if failed then old(sent) else old(sent) + [msg]
    {
      if failed {
        return false;
      }
      FramesAppend(codec, sent, msg);
      wire := wire + Frame(codec, msg);
      sent := sent + [msg];
      return true;
    }
  }

  /**
   * MsgBasedTCPServer: serving is _servingInstance, the connection being
   * handled, if any; outbox is what sendall has written, per connection.
   */
  class Server {
    const codec: Codec
    const accepts: Handler
    var serving: Option<nat>
    var outbox: seq<(nat, seq<byte>)>

    constructor (codec: Codec, accepts: Handler)
      ensures this.codec == codec && this.accepts == accepts && serving == None && outbox == []
    {
      this.codec := codec;
      this.accepts := accepts;
      serving := None;
      outbox := [];
    }

    /**
     * MsgBasedTCPServerHandler.handle for connection conn: nothing while
     * another connection is served; otherwise the connection is served,
     * listened to until its chunks end or listening stops, and released.
     */
    method Handle(conn: nat, chunks: seq<seq<byte>>) returns (r: Option<Listener>)
      modifies this
      ensures outbox == old(outbox)
      ensures old(serving).Some? ==> r == None && serving == old(serving)
      ensures old(serving).None? ==> r == Some(Reassemble(codec, accepts, chunks)) && serving == None
    {
      if serving.Some? {
        return None;
      }
      serving := Some(conn);
      var st := Listen(codec, accepts, chunks);
      serving := None;
      return Some(st);
    }

    /**
     * sendMessage: nothing without a connection; otherwise its frame goes to
     * the connection served, unless sendall raises (failed), which is caught
     * and logged and sends nothing.
     */
    method SendMessage(msg: seq<byte>, failed: bool)
      modifies this
      ensures serving == old(serving)
      ensures serving.None? || failed ==> outbox == old(outbox)
      ensures serving.Some? && !failed ==> outbox == old(outbox) + [(serving.value, Frame(codec, msg))]
    {
      if serving.None? || failed {
        return;
      }
      outbox := outbox + [(serving.value, Frame(codec, msg))];
    }
  }
}
