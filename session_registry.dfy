/** The `activeSessions` table of the socket server and the audio buffer
    every socket shares: how each socket event changes them, and what a
    sequence of events leaves behind. */
module SessionRegistry {
  import opened Common
  import opened GeminiTranscription

  /** One value of `activeSessions`; `None` stands for `null`. */
  datatype SessionEntry = SessionEntry(patientId: Option<string>, mimeType: Option<string>,
                                       sessionId: Option<string>, bufferCount: nat)

  /** The entry a handler uses when its socket has none: every field null,
      no fragment counted. */
  const DefaultEntry := SessionEntry(None, None, None, 0)

  type Sessions = map<string, SessionEntry>

  /** A JavaScript string or `null` in a boolean context: `null` and `""`
      are false. */
  predicate Truthy(s: Option<string>) {
    s.Some? && s.value != []
  }

  /** `activeSessions.get(id) || default`: stored entries are objects,
      hence always truthy. */
  function Lookup(m: Sessions, socketId: string): SessionEntry {
    if socketId in m then m[socketId] else DefaultEntry
  }

  /** The room a result is sent to: `sessionId || socket.id`. */
  function Target(sessionId: Option<string>, socketId: string): (r: string)
    ensures Truthy(sessionId) ==> r == sessionId.value
    ensures !Truthy(sessionId) ==> r == socketId
    ensures socketId != [] ==> r != []
  {
    if Truthy(sessionId) then sessionId.value else socketId
  }

  /** The events a socket sends. */
  datatype Event =
    | RegisterSession(sessionId: Option<string>)
    | StartRecording(patientId: Option<string>, mimeType: Option<string>)
    | AudioData(chunk: Chunk)
    | StopRecording
    | Disconnect

  /** The table after socket `k` sends `ev` (lines 28-66, 129, 136). */
  function NextSessions(m: Sessions, k: string, ev: Event): Sessions {
    match ev
    case RegisterSession(sessionId) =>
      var existing := Lookup(m, k);
      m[k := existing.(sessionId := if Truthy(sessionId) then sessionId else existing.sessionId)]
    case StartRecording(patientId, mimeType) =>
      m[k := SessionEntry(patientId, mimeType, Lookup(m, k).sessionId, 0)]
    case AudioData(_) =>
      var session := Lookup(m, k);
      m[k := session.(bufferCount := session.bufferCount + 1)]
    case StopRecording => m - {k}
    case Disconnect => m - {k}
  }

  /** The shared buffer after any socket sends `ev`: start-recording
      empties it and audio-data appends to it, whoever sends them. */
  function NextBuffer(buffer: seq<Chunk>, ev: Event): seq<Chunk> {
    match ev
    case StartRecording(_, _) => []
    case AudioData(chunk) => buffer + [chunk]
    case _ => buffer
  }

  /** Every handler reads and writes the entry of its own socket only. */
  lemma NextSessionsFrame(m: Sessions, k: string, ev: Event)
    ensures forall j :: j != k ==> (j in NextSessions(m, k, ev) <==> j in m)
    ensures forall j :: j != k && j in m ==> NextSessions(m, k, ev)[j] == m[j]
    ensures k in NextSessions(m, k, ev) <==> !(ev.StopRecording? || ev.Disconnect?)
  {
  }

  /** What each event does to its socket's entry. register-session sets
      the room only to a non-empty id and keeps the rest; start-recording
      takes patient and mime type from the payload, keeps the room and
      zeroes the counter; audio-data adds exactly one to the counter. */
  lemma NextSessionsEntry(m: Sessions, k: string, ev: Event)
    requires !(ev.StopRecording? || ev.Disconnect?)
    ensures var old_ := Lookup(m, k);
            var new_ := NextSessions(m, k, ev)[k];
            match ev
            case RegisterSession(id) =>
              && new_.sessionId == (if Truthy(id) then id else old_.sessionId)
              && new_.patientId == old_.patientId && new_.mimeType == old_.mimeType
              && new_.bufferCount == old_.bufferCount
            case StartRecording(p, mt) =>
              new_ == SessionEntry(p, mt, old_.sessionId, 0)
            case AudioData(_) =>
              new_.bufferCount == old_.bufferCount + 1 && new_.(bufferCount := 0) == old_.(bufferCount := 0)
            case _ => false
  {
  }

  /** No entry stores an empty room name: `sessionId` is only ever set to
      a truthy id, so "set" and "truthy" agree. */
  ghost predicate NoEmptySessionIds(m: Sessions) {
    forall k :: k in m ==> m[k].sessionId != Some([])
  }

  lemma NextSessionsKeepsNoEmptyIds(m: Sessions, k: string, ev: Event)
    requires NoEmptySessionIds(m)
    ensures NoEmptySessionIds(NextSessions(m, k, ev))
    ensures k in NextSessions(m, k, ev) ==>
              (Truthy(NextSessions(m, k, ev)[k].sessionId) <==> NextSessions(m, k, ev)[k].sessionId.Some?)
  {
  }

  /** One event as the server receives it. */
  datatype Delivery = Delivery(socketId: string, event: Event)

  function SessionsAfter(m: Sessions, trace: seq<Delivery>): Sessions
    decreases |trace|
  {
    if trace == [] then m
    else
      var last := trace[|trace| - 1];
      NextSessions(SessionsAfter(m, trace[..|trace| - 1]), last.socketId, last.event)
  }

  function BufferAfter(buffer: seq<Chunk>, trace: seq<Delivery>): seq<Chunk>
    decreases |trace|
  {
    if trace == [] then buffer
    else NextBuffer(BufferAfter(buffer, trace[..|trace| - 1]), trace[|trace| - 1].event)
  }

  /** The audio fragments in `trace`, from every socket, in arrival order. */
  function AudioChunks(trace: seq<Delivery>): seq<Chunk>
    decreases |trace|
  {
    if trace == [] then []
    else
      var last := trace[|trace| - 1];
      AudioChunks(trace[..|trace| - 1]) + (if last.event.AudioData? then [last.event.chunk] else [])
  }

  /** How many audio fragments socket `k` sent in `trace`. */
  function AudioCount(trace: seq<Delivery>, k: string): nat
    decreases |trace|
  {
    if trace == [] then 0
    else
      var last := trace[|trace| - 1];
      AudioCount(trace[..|trace| - 1], k) + (if last.socketId == k && last.event.AudioData? then 1 else 0)
  }

  /** A socket that sends nothing keeps its entry, whatever other sockets
      do. */
  lemma {:induction false} OtherSocketsKeepEntry(m: Sessions, trace: seq<Delivery>, k: string)
    requires forall i :: 0 <= i < |trace| ==> trace[i].socketId != k
    ensures k in SessionsAfter(m, trace) <==> k in m
    ensures k in m ==> SessionsAfter(m, trace)[k] == m[k]
    decreases |trace|
  {
    if trace != [] {
      OtherSocketsKeepEntry(m, trace[..|trace| - 1], k);
      var last := trace[|trace| - 1];
      NextSessionsFrame(SessionsAfter(m, trace[..|trace| - 1]), last.socketId, last.event);
    }
  }

  /** Dropping the last delivery of `head + rest` drops the last of `rest`. */
  lemma SplitLast(head: seq<Delivery>, rest: seq<Delivery>)
    requires rest != []
    ensures (head + rest)[..|head + rest| - 1] == head + rest[..|rest| - 1]
    ensures (head + rest)[|head + rest| - 1] == rest[|rest| - 1]
  {
  }

  /** The shared buffer holds exactly the fragments that ANY socket sent
      since the last start-recording of ANY socket. */
  lemma {:induction false} BufferHoldsAudioSinceLastStart(buffer: seq<Chunk>, before: seq<Delivery>,
                                                          start: Delivery, rest: seq<Delivery>)
    requires start.event.StartRecording?
    requires forall i :: 0 <= i < |rest| ==> !rest[i].event.StartRecording?
    ensures BufferAfter(buffer, before + [start] + rest) == AudioChunks(rest)
    decreases |rest|
  {
    var head := before + [start];
    if rest == [] {
      assert head + rest == head;
      assert head[..|head| - 1] == before;
    } else {
      BufferHoldsAudioSinceLastStart(buffer, before, start, rest[..|rest| - 1]);
      SplitLast(head, rest);
    }
  }

  /** With no start-recording in `trace`, the shared buffer keeps what it
      held and gains every fragment of the trace, in arrival order. */
  lemma {:induction false} BufferWithoutStart(buffer: seq<Chunk>, trace: seq<Delivery>)
    requires forall i :: 0 <= i < |trace| ==> !trace[i].event.StartRecording?
    ensures BufferAfter(buffer, trace) == buffer + AudioChunks(trace)
    decreases |trace|
  {
    if trace != [] {
      BufferWithoutStart(buffer, trace[..|trace| - 1]);
    }
  }

  /** A socket's counter is the number of fragments it sent itself since
      its own start-recording, however many fragments other sockets
      added to the shared buffer meanwhile. */
  lemma {:induction false} CountSinceOwnStart(m: Sessions, before: seq<Delivery>, k: string,
                                              start: Event, rest: seq<Delivery>)
    requires start.StartRecording?
    requires forall i :: 0 <= i < |rest| && rest[i].socketId == k ==>
               rest[i].event.RegisterSession? || rest[i].event.AudioData?
    ensures k in SessionsAfter(m, before + [Delivery(k, start)] + rest)
    ensures SessionsAfter(m, before + [Delivery(k, start)] + rest)[k].bufferCount == AudioCount(rest, k)
    decreases |rest|
  {
    var head := before + [Delivery(k, start)];
    if rest == [] {
      assert head + rest == head;
      assert head[..|head| - 1] == before;
    } else {
      var last := rest[|rest| - 1];
      CountSinceOwnStart(m, before, k, start, rest[..|rest| - 1]);
      SplitLast(head, rest);
      var prev := SessionsAfter(m, head + rest[..|rest| - 1]);
      if last.socketId == k {
        NextSessionsFrame(prev, k, last.event);
        NextSessionsEntry(prev, k, last.event);
      } else {
        NextSessionsFrame(prev, last.socketId, last.event);
      }
    }
  }

  /** Once a socket registers a non-empty room, its results go to that
      room until it registers another non-empty one, stops or
      disconnects: start-recording and audio-data keep the room. */
  lemma {:induction false} RoomSinceRegister(m: Sessions, before: seq<Delivery>, k: string, room: string,
                                             rest: seq<Delivery>)
    requires room != []
    requires forall i :: 0 <= i < |rest| && rest[i].socketId == k ==>
               rest[i].event.StartRecording? || rest[i].event.AudioData?
               || (rest[i].event.RegisterSession? && !Truthy(rest[i].event.sessionId))
    ensures k in SessionsAfter(m, before + [Delivery(k, RegisterSession(Some(room)))] + rest)
    ensures Target(SessionsAfter(m, before + [Delivery(k, RegisterSession(Some(room)))] + rest)[k].sessionId, k) == room
    decreases |rest|
  {
    var head := before + [Delivery(k, RegisterSession(Some(room)))];
    if rest == [] {
      assert head + rest == head;
      assert head[..|head| - 1] == before;
    } else {
      var last := rest[|rest| - 1];
      RoomSinceRegister(m, before, k, room, rest[..|rest| - 1]);
      SplitLast(head, rest);
      NextSessionsFrame(SessionsAfter(m, head + rest[..|rest| - 1]), last.socketId, last.event);
    }
  }

  /** The shared buffer in action: socket `a` starts and sends a fragment,
      then socket `b` starts. `a`'s counter says one fragment, yet the
      buffer is empty, so `a`'s stop-recording finds no audio. */
  lemma AnotherSocketsStartDropsAudio(m: Sessions, buffer: seq<Chunk>, a: string, b: string,
                                      chunk: Chunk, pa: Option<string>, ma: Option<string>,
                                      pb: Option<string>, mb: Option<string>)
    requires a != b
    ensures var trace := [Delivery(a, StartRecording(pa, ma)), Delivery(a, AudioData(chunk)),
                          Delivery(b, StartRecording(pb, mb))];
            && a in SessionsAfter(m, trace) && SessionsAfter(m, trace)[a].bufferCount == 1
            && BufferAfter(buffer, trace) == []
  {
    var rest := [Delivery(a, AudioData(chunk)), Delivery(b, StartRecording(pb, mb))];
    var trace := [Delivery(a, StartRecording(pa, ma))] + rest;
    assert trace == [Delivery(a, StartRecording(pa, ma)), Delivery(a, AudioData(chunk)),
                     Delivery(b, StartRecording(pb, mb))];
    assert [] + [Delivery(a, StartRecording(pa, ma))] + rest == trace;
    CountSinceOwnStart(m, [], a, StartRecording(pa, ma), rest);
    assert rest[..1] == [Delivery(a, AudioData(chunk))];
    assert rest[..1][..0] == [];
    assert AudioCount(rest[..1], a) == 1;
    assert AudioCount(rest, a) == AudioCount(rest[..1], a);
    assert trace[..2] + [trace[2]] == trace;
    BufferHoldsAudioSinceLastStart(buffer, trace[..2], trace[2], []);
    assert trace[..2] + [trace[2]] + [] == trace;
  }

  /** ... and the other way round: a fragment from socket `b` ends up in
      the audio socket `a` finalizes. */
  lemma AnotherSocketsAudioJoinsPayload(buffer: seq<Chunk>, a: string, b: string,
                                        ca: Chunk, cb: Chunk, pa: Option<string>, ma: Option<string>)
    ensures var trace := [Delivery(a, StartRecording(pa, ma)), Delivery(a, AudioData(ca)),
                          Delivery(b, AudioData(cb))];
            BufferAfter(buffer, trace) == [ca, cb] && Concat(BufferAfter(buffer, trace)) == ca + cb
  {
    var rest := [Delivery(a, AudioData(ca)), Delivery(b, AudioData(cb))];
    var trace := [Delivery(a, StartRecording(pa, ma))] + rest;
    assert trace == [Delivery(a, StartRecording(pa, ma)), Delivery(a, AudioData(ca)),
                     Delivery(b, AudioData(cb))];
    assert [] + [Delivery(a, StartRecording(pa, ma))] + rest == trace;
    BufferHoldsAudioSinceLastStart(buffer, [], Delivery(a, StartRecording(pa, ma)), rest);
    assert rest[..1] == [Delivery(a, AudioData(ca))];
    assert rest[..1][..0] == [];
    assert AudioChunks(rest[..1]) == [ca];
    assert AudioChunks(rest) == AudioChunks(rest[..1]) + [cb];
    assert Concat([ca, cb]) == ca + Concat([cb]);
    assert Concat([cb]) == cb + Concat([]);
  }
}
