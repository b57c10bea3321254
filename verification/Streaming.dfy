/** The streaming response: a task pushes the metadata prelude, eight NULs and the stream's chunks
    through a body channel whose other half is read, or dropped, at any time. */
module Streaming {
  import opened Common
  import opened Runs
  import opened BodyChannel
  import JsonText

  const DELIMITER: Bytes := [0, 0, 0, 0, 0, 0, 0, 0]

  /** One item of the user's stream. */
  datatype StreamItem = Chunk(data: Bytes) | Failure(message: Bytes)

  /** The fixed part of `to_tailer` before the encoded message. */
  function TailerHead(): Bytes {
    Ascii("Lambda-Runtime-Function-Error-Type: Runtime.StreamError\r\nLambda-Runtime-Function-Error-Body: ")
  }

  function Ascii(s: string): Bytes {
    seq(|s|, i requires 0 <= i < |s| => s[i] as int % 256)
  }

  /** The chunk sent for an item: the bytes themselves, or the error trailer, which starts with `head`, as
      data. */
  function Encode(head: Bytes, base64: Bytes -> Bytes, item: StreamItem): Bytes {
    match item
    case Chunk(data) => data
    case Failure(message) => head + base64(message) + [13, 10]
  }

  function EncodeAll(head: Bytes, base64: Bytes -> Bytes, items: seq<StreamItem>): seq<Bytes> {
    if items == [] then [] else [Encode(head, base64, items[0])] + EncodeAll(head, base64, items[1..])
  }

  /** The chunks the task sends, in order. */
  function Frames(base64: Bytes -> Bytes, prelude: JsonText.Json, items: seq<StreamItem>): seq<Bytes> {
    [JsonText.Write(prelude), DELIMITER] + EncodeAll(TailerHead(), base64, items)
  }

  lemma {:induction false} EncodeAllAt(head: Bytes, base64: Bytes -> Bytes, items: seq<StreamItem>)
    ensures |EncodeAll(head, base64, items)| == |items|
    ensures forall i :: 0 <= i < |items| ==> EncodeAll(head, base64, items)[i] == Encode(head, base64, items[i])
  {
    if items != [] { EncodeAllAt(head, base64, items[1..]); }
  }

  /** What the task sends, chunk by chunk: the prelude's text, eight NULs, then for the i-th item a chunk
      as it is, or the trailer's text, the base64 of the failure's message and a line end. */
  lemma FrameAt(base64: Bytes -> Bytes, prelude: JsonText.Json, items: seq<StreamItem>, i: nat)
    requires i < |items|
    ensures |Frames(base64, prelude, items)| == |items| + 2
    ensures Frames(base64, prelude, items)[0] == JsonText.Write(prelude)
    ensures Frames(base64, prelude, items)[1] == [0, 0, 0, 0, 0, 0, 0, 0]
    ensures IsChunkOf(base64, items[i], Frames(base64, prelude, items)[i + 2])
  {
    EncodeAllAt(TailerHead(), base64, items);
    OneChunk(base64, items[i]);
    FramesAt(JsonText.Write(prelude), EncodeAll(TailerHead(), base64, items), i);
  }

  lemma FramesAt(text: Bytes, rest: seq<Bytes>, i: nat)
    requires i < |rest|
    ensures var frames := [text, DELIMITER] + rest;
      |frames| == |rest| + 2 && frames[0] == text && frames[1] == [0, 0, 0, 0, 0, 0, 0, 0] && frames[i + 2] == rest[i]
  {
  }

  ghost predicate IsChunkOf(base64: Bytes -> Bytes, item: StreamItem, chunk: Bytes) {
    if item.Chunk? then chunk == item.data
    else
      var text :=
        "Lambda-Runtime-Function-Error-Type: Runtime.StreamError\r\nLambda-Runtime-Function-Error-Body: ";
      var n, body := |text|, base64(item.message);
      && |chunk| == n + |body| + 2
      && (forall k :: 0 <= k < n ==> chunk[k] == text[k] as int % 256)
      && chunk[n..n + |body|] == body && chunk[n + |body|..] == [13, 10]
  }

  lemma OneChunk(base64: Bytes -> Bytes, item: StreamItem)
    ensures IsChunkOf(base64, item, Encode(TailerHead(), base64, item))
  {
    if item.Failure? {
      ThreeParts(TailerHead(), base64(item.message), [13, 10]);
    }
  }

  lemma ThreeParts(head: Bytes, body: Bytes, end: Bytes)
    ensures var chunk := head + body + end;
      && |chunk| == |head| + |body| + |end| && (forall k :: 0 <= k < |head| ==> chunk[k] == head[k])
      && chunk[|head|..|head| + |body|] == body && chunk[|head| + |body|..] == end
  {
  }

  function Concat(chunks: seq<Bytes>): Bytes {
    if chunks == [] then [] else chunks[0] + Concat(chunks[1..])
  }

  /** The body's bytes, folded from the last item back; `head` starts an error trailer. */
  function BodyBytes(head: Bytes, base64: Bytes -> Bytes, items: seq<StreamItem>): Bytes {
    if items == [] then []
    else
      var last := items[|items| - 1];
      BodyBytes(head, base64, items[..|items| - 1])
      + (match last
         case Chunk(data) => data
         case Failure(message) => head + base64(message) + [13, 10])
  }

  lemma {:induction false} EncodeAllGrows(head: Bytes, base64: Bytes -> Bytes, items: seq<StreamItem>, last: StreamItem)
    ensures EncodeAll(head, base64, items + [last]) == EncodeAll(head, base64, items) + [Encode(head, base64, last)]
  {
    if items != [] {
      assert (items + [last])[1..] == items[1..] + [last];
      EncodeAllGrows(head, base64, items[1..], last);
    }
  }

  lemma {:induction false} ConcatGrows(chunks: seq<Bytes>, last: Bytes)
    ensures Concat(chunks + [last]) == Concat(chunks) + last
  {
    if chunks == [] {
      assert [last][1..] == [];
    } else {
      assert (chunks + [last])[1..] == chunks[1..] + [last];
      ConcatGrows(chunks[1..], last);
    }
  }

  lemma {:induction false} BodyIs(head: Bytes, base64: Bytes -> Bytes, items: seq<StreamItem>)
    ensures Concat(EncodeAll(head, base64, items)) == BodyBytes(head, base64, items)
  {
    if items != [] {
      var rest, last := items[..|items| - 1], items[|items| - 1];
      BodyIs(head, base64, rest);
      assert items == rest + [last];
      EncodeAllGrows(head, base64, rest, last);
      ConcatGrows(EncodeAll(head, base64, rest), Encode(head, base64, last));
    }
  }

  /* ---------- the task against any reader ---------- */

  datatype Task = Task(frames: seq<Bytes>, link: State)

  /** The send loop returned early. */
  predicate GaveUp(t: Task) { ChannelClosed in t.link.chan.sends }

  /** What the task's code does next with its sender; the body half is free. */
  predicate Allowed(t: Task, e: Event) {
    var sends := t.link.chan.sends;
    match e
    case BeginSend(chunk) => !GaveUp(t) && |sends| < |t.frames| && chunk == t.frames[|sends|]
    case DropSender => GaveUp(t) || |sends| == |t.frames|
    case CancelSend => false
    case TrySendData(_) => false
    case SendError(_) => false
    case SendTrailers(_) => false
    case _ => true
  }

  function TaskStep(t: Task, e: Event): Option<Task> {
    if !Allowed(t, e) then None
    else match Step(t.link, e)
         case None => None
         case Some(link) => Some(t.(link := link))
  }

  function TaskInit(frames: seq<Bytes>): Task { Task(frames, Init()) }

  function AsData(frames: seq<Bytes>): seq<Item> {
    seq(|frames|, i requires 0 <= i < |frames| => Data(frames[i]))
  }

  /** How many chunks were accepted. */
  function Count(t: Task): int {
    if GaveUp(t) then |t.link.chan.sends| - 1 else |t.link.chan.sends|
  }

  ghost predicate TaskInv(t: Task) {
    var c := t.link.chan;
    && Inv(t.link)
    && 0 <= Count(t) <= |t.frames|
    && c.accepted == AsData(t.frames[..Count(t)])
    && (GaveUp(t) ==> !Reading(t.link.rx) && (t.link.tx.TxIdle? || t.link.tx.TxHalfDropped? || t.link.tx.TxGone?))
    && (!c.txAlive ==> GaveUp(t) || Count(t) == |t.frames|)
    && (t.link.tx.TxWant? || t.link.tx.TxSlot? || t.link.tx.TxSend? ==>
          Count(t) < |t.frames| && t.link.tx.chunk == t.frames[Count(t)])
    && (c.slot.Vacant?)
  }

  /** The body half does not touch the sender's side. */
  lemma BodyLeavesSender(s: State, e: Event)
    requires OfBody(e) && Step(s, e).Some?
    ensures var t := Step(s, e).value;
      && t.tx == s.tx && t.chan.sends == s.chan.sends && t.chan.accepted == s.chan.accepted
      && t.chan.txAlive == s.chan.txAlive && (t.chan.slot.Vacant? <==> s.chan.slot.Vacant?)
      && (Reading(t.rx) ==> Reading(s.rx))
  {
  }

  /** What the sender half of the task can do: start the next chunk, move on, finish one way or the
      other, or drop. */
  lemma TaskSenderStep(t: Task, e: Event)
    requires TaskInv(t) && TaskStep(t, e).Some? && !OfBody(e)
    ensures var c, d := t.link.chan, TaskStep(t, e).value.link.chan;
      && (d.sends == c.sends ==> d.accepted == c.accepted)
      && (d.sends != c.sends ==>
           (&& c.txAlive && d.txAlive && !GaveUp(t) && Count(t) < |t.frames|
            && TaskStep(t, e).value.link.tx.TxIdle?
            && ((d.sends == c.sends + [Sent] && d.accepted == c.accepted + [Data(t.frames[Count(t)])])
                || (d.sends == c.sends + [ChannelClosed] && d.accepted == c.accepted && !Reading(t.link.rx)))))
  {
  }

  lemma TaskStepKeepsInv(t: Task, e: Event)
    requires TaskInv(t) && TaskStep(t, e).Some?
    ensures TaskInv(TaskStep(t, e).value)
  {
    StepKeepsInv(t.link, e);
    if OfBody(e) {
      BodyLeavesSender(t.link, e);
    } else {
      TaskSenderStep(t, e);
      TaskSenderKeepsInv(t, e);
    }
  }

  lemma TaskSenderKeepsInv(t: Task, e: Event)
    requires TaskInv(t) && TaskStep(t, e).Some? && !OfBody(e)
    ensures TaskInv(TaskStep(t, e).value)
  {
    TaskSenderStep(t, e);
    var c, d := t.link.chan, TaskStep(t, e).value.link.chan;
    if d.sends == c.sends {
      QuietStepKeepsInv(t, e);
    } else {
      CompletedSendKeepsInv(t, e);
    }
  }

  lemma QuietStepKeepsInv(t: Task, e: Event)
    requires TaskInv(t) && TaskStep(t, e).Some? && !OfBody(e)
    requires TaskStep(t, e).value.link.chan.sends == t.link.chan.sends
    requires TaskStep(t, e).value.link.chan.accepted == t.link.chan.accepted
    ensures TaskInv(TaskStep(t, e).value)
  {
    StepKeepsInv(t.link, e);
  }

  /** A chunk was accepted, or the channel found closed. */
  lemma CompletedSendKeepsInv(t: Task, e: Event)
    requires TaskInv(t) && TaskStep(t, e).Some? && !OfBody(e)
    requires TaskStep(t, e).value.link.chan.sends != t.link.chan.sends
    ensures TaskInv(TaskStep(t, e).value)
  {
    StepKeepsInv(t.link, e);
    TaskSenderStep(t, e);
    var u := TaskStep(t, e).value;
    var c, d := t.link.chan, u.link.chan;
    if d.sends == c.sends + [Sent] {
      assert !GaveUp(u);
      assert t.frames[..Count(u)] == t.frames[..Count(t)] + [t.frames[Count(t)]];
    } else {
      assert d.sends[|c.sends|] == ChannelClosed;
      assert GaveUp(u);
    }
  }

  lemma TaskReachable(frames: seq<Bytes>, t: Task)
    requires Reaches(TaskStep, TaskInit(frames), t)
    ensures TaskInv(t) && t.frames == frames
  {
    var inv := (a: Task) => TaskInv(a) && a.frames == frames;
    forall a, e | inv(a) && TaskStep(a, e).Some? ensures inv(TaskStep(a, e).value) {
      TaskStepKeepsInv(a, e);
    }
    InvariantHolds(TaskStep, inv, TaskInit(frames), t);
  }

  /** Whatever the reader does, it has seen the task's chunks in order from the first, and no others. */
  lemma DeliveredIsPrefix(frames: seq<Bytes>, t: Task)
    requires Reaches(TaskStep, TaskInit(frames), t)
    ensures Items(t.link.chan.delivered) <= AsData(frames)
  {
    TaskReachable(frames, t);
    var c := t.link.chan;
    assert Items(c.delivered) <= c.accepted;
    PrefixOfData(frames, Count(t));
  }

  lemma PrefixOfData(frames: seq<Bytes>, n: nat)
    requires n <= |frames|
    ensures AsData(frames[..n]) == AsData(frames)[..n]
  {
  }

  /** A reader that is told the body has ended, and did not drop it, has seen every chunk. */
  lemma EndMeansComplete(frames: seq<Bytes>, t: Task, i: nat)
    requires Reaches(TaskStep, TaskInit(frames), t) && Reading(t.link.rx)
    requires i < |t.link.chan.delivered| && t.link.chan.delivered[i].End?
    ensures Items(t.link.chan.delivered) == AsData(frames)
  {
    TaskReachable(frames, t);
    assert !AllPieces(t.link.chan.delivered);
    assert t.frames[..|t.frames|] == t.frames;
  }

  /* ---------- the bytes on the wire ---------- */

  /** Splits at the first run of eight NULs. */
  function Split(wire: Bytes): Option<(Bytes, Bytes)> {
    if |wire| < 8 then None
    else if wire[..8] == DELIMITER then Some(([], wire[8..]))
    else
      match Split(wire[1..])
      case None => None
      case Some((head, rest)) => Some(([wire[0]] + head, rest))
  }

  /** Eight NULs start at `k`. */
  predicate NulsAt(wire: Bytes, k: nat) {
    k + 8 <= |wire| && forall j :: k <= j < k + 8 ==> wire[j] == 0
  }

  lemma NulsAreDelimiter(wire: Bytes)
    requires |wire| >= 8
    ensures NulsAt(wire, 0) <==> wire[..8] == DELIMITER
  {
    if wire[..8] == DELIMITER {
      assert forall j :: 0 <= j < 8 ==> wire[j] == wire[..8][j];
    }
  }

  lemma NulsShift(wire: Bytes, k: nat)
    requires k > 0 && wire != []
    ensures NulsAt(wire, k) <==> NulsAt(wire[1..], k - 1)
  {
    if NulsAt(wire[1..], k - 1) {
      assert forall j :: k <= j < k + 8 ==> wire[j] == wire[1..][j - 1];
    }
  }

  /** Splitting fails only where there is no run of eight NULs. */
  lemma {:induction false} SplitFails(wire: Bytes, k: nat)
    requires Split(wire).None?
    ensures !NulsAt(wire, k)
    decreases |wire|
  {
    if |wire| >= 8 {
      NulsAreDelimiter(wire);
      if k > 0 {
        NulsShift(wire, k);
        SplitFails(wire[1..], k - 1);
      }
    }
  }

  /** Splitting takes out the first run of eight NULs. */
  lemma {:induction false} SplitIsFirst(wire: Bytes, k: nat)
    requires Split(wire).Some?
    ensures var (head, rest) := Split(wire).value;
      wire == head + DELIMITER + rest && (k < |head| ==> !NulsAt(wire, k))
    decreases |wire|
  {
    NulsAreDelimiter(wire);
    if wire[..8] == DELIMITER {
      assert wire == [] + wire[..8] + wire[8..];
    } else {
      if k > 0 { NulsShift(wire, k); }
      SplitIsFirst(wire[1..], if k > 0 then k - 1 else 0);
      var (head, rest) := Split(wire[1..]).value;
      assert wire == [wire[0]] + (head + DELIMITER + rest);
      assert wire == [wire[0]] + head + DELIMITER + rest;
    }
  }

  lemma {:induction false} SplitAtDelimiter(head: Bytes, rest: Bytes)
    requires JsonText.NoControl(head)
    ensures Split(head + DELIMITER + rest) == Some((head, rest))
  {
    var wire := head + DELIMITER + rest;
    if head == [] {
      assert wire[..8] == DELIMITER && wire[8..] == rest;
    } else {
      assert wire[..8][0] == head[0] != DELIMITER[0];
      assert wire[1..] == head[1..] + DELIMITER + rest;
      SplitAtDelimiter(head[1..], rest);
      assert [head[0]] + head[1..] == head;
    }
  }

  /** The whole stream's bytes are the prelude's text, eight NULs and the items' bytes in order, and they
      split at the first run of eight NULs into exactly that text and those bytes, whatever the prelude's
      strings and the items hold. */
  lemma WireSplits(base64: Bytes -> Bytes, prelude: JsonText.Json, items: seq<StreamItem>)
    ensures Concat(Frames(base64, prelude, items))
            == JsonText.Write(prelude) + [0, 0, 0, 0, 0, 0, 0, 0] + BodyBytes(TailerHead(), base64, items)
    ensures Split(Concat(Frames(base64, prelude, items)))
            == Some((JsonText.Write(prelude), BodyBytes(TailerHead(), base64, items)))
  {
    var text, rest := JsonText.Write(prelude), EncodeAll(TailerHead(), base64, items);
    BodyIs(TailerHead(), base64, items);
    ConcatFrames(text, rest);
    JsonText.WriteHasNoControl(prelude);
    SplitAtDelimiter(text, Concat(rest));
  }

  lemma ConcatFrames(text: Bytes, rest: seq<Bytes>)
    ensures Concat([text, DELIMITER] + rest) == text + DELIMITER + Concat(rest)
    ensures DELIMITER == [0, 0, 0, 0, 0, 0, 0, 0]
  {
    var frames := [text, DELIMITER] + rest;
    assert frames[1..] == [DELIMITER] + rest && frames[1..][1..] == rest;
    assert Concat(frames) == text + (DELIMITER + Concat(rest));
    assert text + (DELIMITER + Concat(rest)) == text + DELIMITER + Concat(rest);
  }

  /** Two responses with the same bytes have the same prelude and the same body bytes. */
  lemma WireIsUnambiguous(
    base64: Bytes -> Bytes, p: JsonText.Json, xs: seq<StreamItem>, q: JsonText.Json, ys: seq<StreamItem>)
    requires Concat(Frames(base64, p, xs)) == Concat(Frames(base64, q, ys))
    ensures p == q
    ensures BodyBytes(TailerHead(), base64, xs) == BodyBytes(TailerHead(), base64, ys)
  {
    WireSplits(base64, p, xs);
    WireSplits(base64, q, ys);
    PreludeIsRead(p);
    PreludeIsRead(q);
  }

  /** The prelude is read back from its text. */
  lemma PreludeIsRead(p: JsonText.Json)
    ensures JsonText.ReadValue(JsonText.Write(p)) == Some((p, []))
  {
    JsonText.ValueRoundTrip(p, []);
    assert JsonText.Write(p) + [] == JsonText.Write(p);
  }

  /** The bytes of the data frames a reader has seen. */
  function BytesOf(items: seq<Item>): Bytes {
    if items == [] then [] else (if items[0].Data? then items[0].chunk else []) + BytesOf(items[1..])
  }

  lemma {:induction false} BytesOfData(frames: seq<Bytes>)
    ensures BytesOf(AsData(frames)) == Concat(frames)
  {
    if frames != [] {
      assert AsData(frames)[1..] == AsData(frames[1..]);
      BytesOfData(frames[1..]);
    }
  }

  /** End to end: a reader that sees the body end without having dropped it recovers the prelude itself
      and the items' bytes in order from what it read. */
  lemma ReaderRecoversResponse(
    base64: Bytes -> Bytes, prelude: JsonText.Json, items: seq<StreamItem>, t: Task, i: nat)
    requires Reaches(TaskStep, TaskInit(Frames(base64, prelude, items)), t) && Reading(t.link.rx)
    requires i < |t.link.chan.delivered| && t.link.chan.delivered[i].End?
    ensures Split(BytesOf(Items(t.link.chan.delivered))).Some?
    ensures var (head, body) := Split(BytesOf(Items(t.link.chan.delivered))).value;
      JsonText.ReadValue(head) == Some((prelude, [])) && body == BodyBytes(TailerHead(), base64, items)
  {
    var frames := Frames(base64, prelude, items);
    EndMeansComplete(frames, t, i);
    BytesOfData(frames);
    WireSplits(base64, prelude, items);
    PreludeIsRead(prelude);
  }
}
