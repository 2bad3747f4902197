/** `AudioTranscriptionService`: the socket handlers over the session
    table, the shared transcription service, an outbox standing for
    `io.to(room).emit(...)`, and the transcriptions it stores. */
module AudioTranscription {
  import opened Common
  import opened Titles
  import opened GeminiTranscription
  import opened SessionRegistry

  const ResultEvent := "transcription-result"
  const ErrorText := "Error transcribing audio. Please try again."

  /** The result sent to clients when finalizing fails for any reason. */
  const ErrorResult := FinalTranscription(ErrorText, true)

  /** One `io.to(room).emit(event, payload)`. */
  datatype Emission = Emission(room: string, event: string, payload: FinalTranscription)

  /** A stored transcription row: content, title and patient. */
  datatype TranscriptionRecord = TranscriptionRecord(content: string, title: string, patientId: string)

  /** `client.patient.findFirst(...)`: it throws, or gives `fallbackPatient?.id`. */
  datatype PatientLookup = LookupThrows | LookupReturns(id: Option<string>)

  /** How the try block of stop-recording ends: it reaches the emit with the
      transcript (having stored a record or not), or something in it throws. */
  datatype StopOutcome = Delivered(result: FinalTranscription, record: Option<TranscriptionRecord>) | Failed

  /** The mime type stop-recording asks for: the session's when it is
      non-empty, else `audio/webm`. */
  function StopMimeType(session: SessionEntry): (r: string)
    ensures MimeOrDefault(Some(r)) == MimeOrDefault(session.mimeType)
  {
    if Truthy(session.mimeType) then session.mimeType.value else DefaultMimeType
  }

  /** The try block of stop-recording after the transcript (lines 86-112):
      the patient is the session's, else the first patient found; a record
      is stored only for a truthy patient, titled by `generateTitle`. */
  function StopOutcomeOf(final: Result<FinalTranscription, TranscriptionError>, session: SessionEntry,
                         configured: bool, titleReply: Option<string>,
                         lookup: PatientLookup, createSucceeds: bool): StopOutcome
  {
    if final.Failure? then Failed
    else if !Truthy(session.patientId) && lookup.LookupThrows? then Failed
    else
      var patientId := if Truthy(session.patientId) then session.patientId else lookup.id;
      if !Truthy(patientId) then Delivered(final.value, None)
      else if !createSucceeds then Failed
      else
        var text := final.value.text;
        Delivered(final.value, Some(TranscriptionRecord(text, GenerateTitle(configured, text, titleReply), patientId.value)))
  }

  /** The one emission of stop-recording. On success the room comes from
      the entry read at the start; in the catch block the table is read
      again (`atCatch`, absent when the entry is gone). */
  function StopEmission(socketId: string, snapshot: SessionEntry, atCatch: Option<SessionEntry>,
                        outcome: StopOutcome): Emission
  {
    if outcome.Delivered? then Emission(Target(snapshot.sessionId, socketId), ResultEvent, outcome.result)
    else
      var sessionId := if atCatch.Some? then atCatch.value.sessionId else None;
      Emission(Target(sessionId, socketId), ResultEvent, ErrorResult)
  }

  function StoredRecords(outcome: StopOutcome): seq<TranscriptionRecord> {
    if outcome.Delivered? && outcome.record.Some? then [outcome.record.value] else []
  }

  /** A transcript is delivered exactly when the transcriber succeeded and
      every persistence step that ran succeeded; what is delivered is the
      transcriber's result, unaltered, and any stored record holds that
      very text for a non-empty patient id. */
  lemma StopOutcomeDelivers(final: Result<FinalTranscription, TranscriptionError>, session: SessionEntry,
                            configured: bool, titleReply: Option<string>,
                            lookup: PatientLookup, createSucceeds: bool)
    ensures var o := StopOutcomeOf(final, session, configured, titleReply, lookup, createSucceeds);
            var patientId := if Truthy(session.patientId) then session.patientId
                             else if lookup.LookupReturns? then lookup.id else None;
            && (o.Delivered? <==> final.Success?
                                  && (Truthy(session.patientId) || lookup.LookupReturns?)
                                  && (Truthy(patientId) ==> createSucceeds))
            && (o.Delivered? ==> o.result == final.value)
            && (o.Delivered? ==> (o.record.Some? <==> Truthy(patientId)))
            && (o.Delivered? && o.record.Some? ==>
                  o.record.value.content == final.value.text && o.record.value.patientId == patientId.value
                  && o.record.value.patientId != [])
  {
  }

  /** The stored title follows the rules of `generateTitle`: when the model
      call throws it is the never-empty fallback of the first eight words. */
  lemma StopRecordTitle(final: Result<FinalTranscription, TranscriptionError>, session: SessionEntry,
                        titleReply: Option<string>, lookup: PatientLookup)
    requires final.Success?
    requires StopOutcomeOf(final, session, true, titleReply, lookup, true).Delivered?
    requires StopOutcomeOf(final, session, true, titleReply, lookup, true).record.Some?
    ensures var title := StopOutcomeOf(final, session, true, titleReply, lookup, true).record.value.title;
            && (titleReply.None? ==> title == ErrorTitle(final.value.text) && title != [])
            && (titleReply.Some? ==> title == CleanTitle(titleReply.value))
  {
    ErrorTitleProperties(final.value.text);
  }

  /** Exactly one `transcription-result` goes out: the delivered result, or
      the fixed error text; a failure never leaks the transcript. */
  lemma StopEmissionPayload(socketId: string, snapshot: SessionEntry, atCatch: Option<SessionEntry>,
                            outcome: StopOutcome)
    ensures var e := StopEmission(socketId, snapshot, atCatch, outcome);
            && e.event == ResultEvent
            && e.payload.isComplete == (outcome.Failed? || outcome.result.isComplete)
            && (outcome.Delivered? ==> e.payload == outcome.result)
            && (outcome.Failed? ==> e.payload.text == ErrorText)
  {
  }

  /** The room: on success the snapshot's room; on failure the room read
      again, which is the same unless the entry went away meanwhile, in
      which case it is the socket id. */
  lemma StopEmissionRoom(socketId: string, m: Sessions, removedMeanwhile: bool, outcome: StopOutcome)
    ensures var atCatch := if removedMeanwhile || socketId !in m then None else Some(m[socketId]);
            var e := StopEmission(socketId, Lookup(m, socketId), atCatch, outcome);
            && (outcome.Delivered? || !removedMeanwhile ==> e.room == Target(Lookup(m, socketId).sessionId, socketId))
            && (outcome.Failed? && removedMeanwhile ==> e.room == socketId)
            && ((Truthy(Lookup(m, socketId).sessionId) && (outcome.Delivered? || !removedMeanwhile))
                ==> e.room == Lookup(m, socketId).sessionId.value)
  {
  }

  /** A socket registered to a room whose stop-recording fails after the
      entry was removed sends the error to the bare socket id, not to the
      room its client joined. */
  lemma RemovedEntryMisroutesError(socketId: string, m: Sessions, room: string)
    requires socketId in m && m[socketId].sessionId == Some(room) && room != [] && room != socketId
    ensures StopEmission(socketId, Lookup(m, socketId), None, Failed).room == socketId
    ensures StopEmission(socketId, Lookup(m, socketId), Some(m[socketId]), Failed).room == room
  {
  }

  class AudioTranscriptionService {
    const gemini: GeminiTranscriptionService
    var sessions: Sessions
    var outbox: seq<Emission>
    var records: seq<TranscriptionRecord>

    ghost predicate Valid()
      reads this
    {
      NoEmptySessionIds(sessions)
    }

    constructor (gemini: GeminiTranscriptionService)
      ensures this.gemini == gemini
      ensures sessions == map[] && outbox == [] && records == []
      ensures Valid()
    {
      this.gemini := gemini;
      sessions := map[];
      outbox := [];
      records := [];
    }

    /** register-session (lines 28-37). `sessionId` is the payload's, `None`
        when the payload or the field is missing. */
    method RegisterSession(socketId: string, sessionId: Option<string>)
      requires Valid()
      modifies this
      ensures Valid()
      ensures sessions == NextSessions(old(sessions), socketId, Event.RegisterSession(sessionId))
      ensures outbox == old(outbox) && records == old(records)
    {
      var existing := if socketId in sessions then sessions[socketId] else DefaultEntry;
      var room := if sessionId.Some? && sessionId.value != [] then sessionId else existing.sessionId;
      sessions := sessions[socketId := existing.(sessionId := room)];
      NextSessionsKeepsNoEmptyIds(old(sessions), socketId, Event.RegisterSession(sessionId));
    }

    /** start-recording (lines 39-51): note the reset of the buffer all
        sockets share. */
    method StartRecording(socketId: string, patientId: Option<string>, mimeType: Option<string>)
      requires Valid()
      modifies this, gemini
      ensures Valid()
      ensures sessions == NextSessions(old(sessions), socketId, Event.StartRecording(patientId, mimeType))
      ensures gemini.audioBuffer == NextBuffer(old(gemini.audioBuffer), Event.StartRecording(patientId, mimeType))
      ensures gemini.currentTranscript == []
      ensures outbox == old(outbox) && records == old(records)
    {
      var previous := if socketId in sessions then sessions[socketId].sessionId else None;
      sessions := sessions[socketId := SessionEntry(patientId, mimeType, previous, 0)];
      gemini.ResetSession();
      NextSessionsKeepsNoEmptyIds(old(sessions), socketId, Event.StartRecording(patientId, mimeType));
    }

    /** audio-data (lines 53-66). */
    method AudioData(socketId: string, chunk: Chunk)
      requires Valid()
      modifies this, gemini
      ensures Valid()
      ensures sessions == NextSessions(old(sessions), socketId, Event.AudioData(chunk))
      ensures gemini.audioBuffer == NextBuffer(old(gemini.audioBuffer), Event.AudioData(chunk))
      ensures gemini.currentTranscript == old(gemini.currentTranscript)
      ensures outbox == old(outbox) && records == old(records)
    {
      if socketId !in sessions {
        sessions := sessions[socketId := DefaultEntry];
      }
      gemini.AddAudioChunk(chunk);
      var session := sessions[socketId];
      sessions := sessions[socketId := session.(bufferCount := session.bufferCount + 1)];
      NextSessionsKeepsNoEmptyIds(old(sessions), socketId, Event.AudioData(chunk));
    }

    /** stop-recording (lines 68-133). The transcriber, the title reply,
        the patient lookup and the record store are inputs;
        `removedMeanwhile` says whether the entry was deleted (by a
        disconnect) while the handler awaited. */
    method StopRecording(socketId: string, transcribe: Transcriber, titleReply: Option<string>,
                         lookup: PatientLookup, createSucceeds: bool, removedMeanwhile: bool)
      requires Valid()
      modifies this, gemini
      ensures Valid()
      ensures sessions == NextSessions(old(sessions), socketId, Event.StopRecording)
      ensures var snapshot := Lookup(old(sessions), socketId);
              var final := FinalOutcome(gemini.configured, old(gemini.audioBuffer), Some(StopMimeType(snapshot)), transcribe);
              var outcome := StopOutcomeOf(final, snapshot, gemini.configured, titleReply, lookup, createSucceeds);
              var atCatch := if removedMeanwhile || socketId !in old(sessions) then None else Some(old(sessions)[socketId]);
              && outbox == old(outbox) + [StopEmission(socketId, snapshot, atCatch, outcome)]
              && records == old(records) + StoredRecords(outcome)
              && gemini.currentTranscript == (if final.Success? then final.value.text else old(gemini.currentTranscript))
      ensures gemini.audioBuffer == old(gemini.audioBuffer)
      ensures socketId in old(sessions) && old(sessions)[socketId].sessionId.Some? && !removedMeanwhile ==>
                outbox[|outbox| - 1].room == old(sessions)[socketId].sessionId.value
    {
      var snapshot := if socketId in sessions then sessions[socketId] else DefaultEntry;
      var mime := if snapshot.mimeType.Some? && snapshot.mimeType.value != [] then snapshot.mimeType.value else DefaultMimeType;
      assert mime == StopMimeType(snapshot);
      var final := gemini.GetFinalTranscription(Some(mime), transcribe);
      var outcome := StopOutcomeOf(final, snapshot, gemini.configured, titleReply, lookup, createSucceeds);
      records := records + StoredRecords(outcome);
      // The catch block reads the table again.
      var current := if removedMeanwhile || socketId !in sessions then None else Some(sessions[socketId]);
      outbox := outbox + [StopEmission(socketId, snapshot, current, outcome)];
      sessions := sessions - {socketId};
    }

    /** disconnect (lines 135-139). */
    method Disconnect(socketId: string)
      requires Valid()
      modifies this
      ensures Valid()
      ensures sessions == NextSessions(old(sessions), socketId, Event.Disconnect)
      ensures outbox == old(outbox) && records == old(records)
    {
      sessions := sessions - {socketId};
    }
  }

  /** Start-recording on socket `b` discards the audio socket `a` has
      streamed: `a`'s stop-recording then finds no audio and sends the
      error result, although `a`'s counter says one fragment arrived. */
  method SharedBufferAcrossSockets(service: AudioTranscriptionService, a: string, b: string,
                                   chunk: Chunk, transcribe: Transcriber)
    requires service.Valid() && service.gemini.configured && a != b
    modifies service, service.gemini
    ensures service.gemini.audioBuffer == []
    ensures |service.outbox| == |old(service.outbox)| + 1
    ensures service.outbox[|service.outbox| - 1].payload == ErrorResult
    ensures a !in service.sessions && b in service.sessions
  {
    service.StartRecording(a, None, None);
    service.AudioData(a, chunk);
    assert service.sessions[a].bufferCount == 1;
    service.StartRecording(b, None, None);
    assert service.sessions[a].bufferCount == 1;
    service.StopRecording(a, transcribe, None, LookupThrows, true, false);
  }
}
