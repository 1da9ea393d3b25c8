/** The eight severities `GelfLogger` names, one per PSR-3 logging method. */
module AuditLevels {

  datatype Level = Emergency | Alert | Critical | Error | Warning | Notice | Info | Debug
}

/**
  `GelfLogger` above the chunking encoder: `send` (encode, then write the
  datagrams in order, stopping at the first failed write), `log`, and the
  severity methods that forward to `log`.

  Everything the logger takes from outside is a field of `Transport`: the
  `toJson` serialisation of a message, `gzcompress`, the raw digest that
  becomes the message id, whether the UDP socket could be opened, and the
  outcome of the k-th `fwrite` of one send.
 */
module GelfLogger {
  import opened Wrappers
  import opened GelfChunking
  import AuditLevels

  /** The context array passed along with a log message. */
  type Context = map<string, string>

  /** The `GelfMessage` built by `log`: the context, then the level and the
      full message set on it. */
  datatype GelfEvent = GelfEvent(level: AuditLevels.Level, fullMessage: string, context: Context)

  /** The collaborators of one send. `serialize` and `compress` yield `None`
      where `toJson` throws or `gzcompress` returns false. */
  datatype Transport = Transport(
    serialize: GelfEvent -> Option<Bytes>,
    compress: Bytes -> Option<Bytes>,
    digest: Bytes,
    socketOpens: bool,
    writeOk: nat -> bool)

  /** What one send reports, and the datagrams the socket accepted, in order. */
  datatype SendResult = SendResult(ok: bool, written: seq<Bytes>)

  /** The compressed JSON of an event, or `None` when either step fails. */
  function Encode(event: GelfEvent, t: Transport): (r: Option<Bytes>)
    ensures r.None? <==> t.serialize(event).None? || t.compress(t.serialize(event).value).None?
  {
    match t.serialize(event)
    case None => None
    case Some(json) => t.compress(json)
  }

  /** `!fwrite($_sock, $_chunk)`: a write counts as failed when the socket
      refuses it, and also when it writes zero bytes, which is what `fwrite`
      reports for an empty datagram. */
  predicate Delivered(d: Bytes, accepted: bool)
  {
    accepted && |d| > 0
  }

  /** The `foreach`/`fwrite` loop of `send` from datagram `i` on: each
      datagram is written in turn and the loop stops at the first write that
      fails. */
  function WriteFrom(ds: seq<Bytes>, writeOk: nat -> bool, i: nat): (r: SendResult)
    requires i <= |ds|
    ensures i + |r.written| <= |ds|
    ensures r.written == ds[i..i + |r.written|]
    ensures forall j | i <= j < i + |r.written| :: Delivered(ds[j], writeOk(j))
    ensures r.ok <==> forall j | i <= j < |ds| :: Delivered(ds[j], writeOk(j))
    ensures r.ok ==> i + |r.written| == |ds|
    ensures !r.ok ==> i + |r.written| < |ds| && !Delivered(ds[i + |r.written|], writeOk(i + |r.written|))
    decreases |ds| - i
  {
    if i == |ds| then SendResult(true, [])
    else if !Delivered(ds[i], writeOk(i)) then SendResult(false, [])
    else
      var rest := WriteFrom(ds, writeOk, i + 1);
      SendResult(rest.ok, [ds[i]] + rest.written)
  }

  /** The part of `send` after `prepareMessage`: nothing is written when it
      returned `false` or when the socket cannot be opened; otherwise the
      datagrams are written in order up to the first failed write. */
  function SendPrepared(prepared: Option<seq<Bytes>>, socketOpens: bool, writeOk: nat -> bool): (r: SendResult)
    ensures prepared.None? || !socketOpens ==> r == SendResult(false, [])
    ensures r.ok <==>
      && prepared.Some?
      && socketOpens
      && forall j | 0 <= j < |prepared.value| :: Delivered(prepared.value[j], writeOk(j))
    ensures prepared.Some? ==>
      |r.written| <= |prepared.value| && r.written == prepared.value[..|r.written|]
    ensures forall j | 0 <= j < |r.written| :: Delivered(r.written[j], writeOk(j))
    ensures !r.ok && socketOpens && prepared.Some? ==>
      |r.written| < |prepared.value| && !Delivered(prepared.value[|r.written|], writeOk(|r.written|))
  {
    if prepared.None? || !socketOpens then SendResult(false, [])
    else
      var ds := prepared.value;
      var w := WriteFrom(ds, writeOk, 0);
      assert forall j | 0 <= j < |w.written| :: w.written[j] == ds[j];
      w
  }

  /** `send`: nothing is written when encoding fails, when the message needs
      more than 128 chunks, or when the socket cannot be opened; otherwise
      the datagrams of `prepareMessage` are written in order up to the first
      failed write, and the send succeeds exactly when every write does. */
  function Send(event: GelfEvent, t: Transport): (r: SendResult)
    ensures Encode(event, t).None? ==> r == SendResult(false, [])
    ensures (Encode(event, t).Some? && |Encode(event, t).value| > MaxChunksAllowed * MaxChunkSize)
              ==> r == SendResult(false, [])
    ensures !t.socketOpens ==> r == SendResult(false, [])
    ensures r.ok <==>
      && Encode(event, t).Some?
      && |Encode(event, t).value| <= MaxChunksAllowed * MaxChunkSize
      && t.socketOpens
      && var ds := PrepareMessage(Encode(event, t), t.digest).value;
         forall j | 0 <= j < |ds| :: Delivered(ds[j], t.writeOk(j))
    ensures r.written != [] ==> PrepareMessage(Encode(event, t), t.digest).Some?
    ensures var ds := PrepareMessage(Encode(event, t), t.digest);
      ds.Some? ==> |r.written| <= |ds.value| && r.written == ds.value[..|r.written|]
    ensures forall j | 0 <= j < |r.written| :: Delivered(r.written[j], t.writeOk(j))
    ensures var ds := PrepareMessage(Encode(event, t), t.digest);
      !r.ok && t.socketOpens && ds.Some? ==>
        |r.written| < |ds.value| && !Delivered(ds.value[|r.written|], t.writeOk(|r.written|))
  {
    SendPrepared(PrepareMessage(Encode(event, t), t.digest), t.socketOpens, t.writeOk)
  }

  /** The outcome of `send` in terms of the payload: it succeeds exactly when
      the message encodes to a non-empty payload within the 128-chunk limit,
      the socket opens and the socket accepts every datagram. An empty
      payload always fails, since its one datagram writes zero bytes. */
  lemma SendSucceeds(event: GelfEvent, t: Transport)
    ensures Send(event, t).ok <==>
      && Encode(event, t).Some?
      && 0 < |Encode(event, t).value| <= MaxChunksAllowed * MaxChunkSize
      && t.socketOpens
      && forall j | 0 <= j < |PrepareMessage(Encode(event, t), t.digest).value| :: t.writeOk(j)
  {
    var e := Encode(event, t);
    if e.Some? && |e.value| <= MaxChunksAllowed * MaxChunkSize {
      DatagramsNonEmpty(e.value, t.digest);
      var ds := PrepareMessage(e, t.digest).value;
      assert |ds| >= 1;
      if |e.value| == 0 {
        assert !Delivered(ds[0], t.writeOk(0));
      } else {
        assert forall j | 0 <= j < |ds| :: Delivered(ds[j], t.writeOk(j)) <==> t.writeOk(j);
      }
    }
  }

  /** A send that succeeds has written every datagram `prepareMessage`
      produced for a payload within the 128-chunk limit. */
  lemma SendWritesAll(event: GelfEvent, t: Transport)
    requires Send(event, t).ok
    ensures Encode(event, t).Some?
    ensures |Encode(event, t).value| <= MaxChunksAllowed * MaxChunkSize
    ensures PrepareMessage(Encode(event, t), t.digest).Some?
    ensures Send(event, t).written == PrepareMessage(Encode(event, t), t.digest).value
  {
    var e := Encode(event, t);
    assert e.Some? && |e.value| <= MaxChunksAllowed * MaxChunkSize;
    var ds := PrepareMessage(e, t.digest).value;
    var w := WriteFrom(ds, t.writeOk, 0);
    assert Send(event, t) == SendPrepared(Some(ds), true, t.writeOk) == w;
    assert w.ok;
    assert |w.written| == |ds|;
    assert w.written == ds[0..|ds|] == ds;
  }

  /** A send that succeeds has written exactly what the receiving side
      reassembles into the compressed message; the compressed payload must
      not open with the chunk magic, which a zlib stream never does. */
  lemma SendDelivers(event: GelfEvent, t: Transport)
    requires Send(event, t).ok
    requires !HasMagic(Encode(event, t).value)
    ensures Receive(Send(event, t).written, |t.digest|) == Some(Encode(event, t).value)
  {
    SendWritesAll(event, t);
    var s := Encode(event, t).value;
    assert Encode(event, t) == Some(s);
    MessageRoundTrip(s, t.digest);
  }

  /** `log`: builds the message from the context, level and text, and sends it. */
  function Log(level: AuditLevels.Level, message: string, context: Context, t: Transport): (r: SendResult)
    ensures r == Send(GelfEvent(level, message, context), t)
  {
    Send(GelfEvent(level, message, context), t)
  }

  // The severity methods forward to `log` with their level and return
  // nothing: their only effect is the datagrams written.

  function Emergency(message: string, context: Context, t: Transport): (written: seq<Bytes>)
    ensures written == Log(AuditLevels.Emergency, message, context, t).written
  {
    Log(AuditLevels.Emergency, message, context, t).written
  }

  function Alert(message: string, context: Context, t: Transport): (written: seq<Bytes>)
    ensures written == Log(AuditLevels.Alert, message, context, t).written
  {
    Log(AuditLevels.Alert, message, context, t).written
  }

  function Critical(message: string, context: Context, t: Transport): (written: seq<Bytes>)
    ensures written == Log(AuditLevels.Critical, message, context, t).written
  {
    Log(AuditLevels.Critical, message, context, t).written
  }

  function Error(message: string, context: Context, t: Transport): (written: seq<Bytes>)
    ensures written == Log(AuditLevels.Error, message, context, t).written
  {
    Log(AuditLevels.Error, message, context, t).written
  }

  function Warning(message: string, context: Context, t: Transport): (written: seq<Bytes>)
    ensures written == Log(AuditLevels.Warning, message, context, t).written
  {
    Log(AuditLevels.Warning, message, context, t).written
  }

  function Notice(message: string, context: Context, t: Transport): (written: seq<Bytes>)
    ensures written == Log(AuditLevels.Notice, message, context, t).written
  {
    Log(AuditLevels.Notice, message, context, t).written
  }

  function Info(message: string, context: Context, t: Transport): (written: seq<Bytes>)
    ensures written == Log(AuditLevels.Info, message, context, t).written
  {
    Log(AuditLevels.Info, message, context, t).written
  }

  function Debug(message: string, context: Context, t: Transport): (written: seq<Bytes>)
    ensures written == Log(AuditLevels.Debug, message, context, t).written
  {
    Log(AuditLevels.Debug, message, context, t).written
  }
}
