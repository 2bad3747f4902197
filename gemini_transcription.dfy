/** The audio side of `GeminiTranscriptionService`: one buffer of audio
    fragments, emptied by `resetSession`, grown by `addAudioChunk`, and
    turned into a transcript by `getFinalTranscription`. */
module GeminiTranscription {
  import opened Common
  import opened JsStrings

  newtype byte = b: int | 0 <= b < 256

  /** One `Buffer` pushed by `addAudioChunk`. */
  type Chunk = seq<byte>

  /** `Buffer.concat(chunks)`. */
  function Concat(chunks: seq<Chunk>): Chunk
    decreases |chunks|
  {
    if chunks == [] then [] else chunks[0] + Concat(chunks[1..])
  }

  /** Concatenation follows arrival order: it distributes over appending
      fragments, so a later fragment always lands after an earlier one. */
  lemma {:induction false} ConcatAppend(a: seq<Chunk>, b: seq<Chunk>)
    ensures Concat(a + b) == Concat(a) + Concat(b)
    decreases |a|
  {
    if a == [] {
      assert a + b == b;
    } else {
      ConcatAppend(a[1..], b);
      assert (a + b)[1..] == a[1..] + b;
    }
  }

  /** Every fragment appears whole in the payload, at the offset given by
      the fragments before it. */
  lemma ConcatPlacesFragment(chunks: seq<Chunk>, i: nat)
    requires i < |chunks|
    ensures var off := |Concat(chunks[..i])|;
            off + |chunks[i]| <= |Concat(chunks)|
            && Concat(chunks)[off..off + |chunks[i]|] == chunks[i]
  {
    assert chunks == chunks[..i] + [chunks[i]] + chunks[i + 1..];
    ConcatAppend(chunks[..i] + [chunks[i]], chunks[i + 1..]);
    ConcatAppend(chunks[..i], [chunks[i]]);
    assert Concat([chunks[i]]) == chunks[i] + Concat([]);
  }

  const NotConfiguredMessage := "GEMINI_API_KEY is not configured"
  const NoAudioMessage := "No audio received to transcribe"
  const DefaultMimeType := "audio/webm"

  /** The errors `getFinalTranscription` throws. `Upstream` carries the
      message of the error the model call threw. */
  datatype TranscriptionError = NotConfigured | NoAudio | Upstream(detail: string)
  {
    function Message(): string {
      match this
      case NotConfigured => NotConfiguredMessage
      case NoAudio => NoAudioMessage
      case Upstream(detail) => detail
    }
  }

  /** `{ text, isComplete: true }`. */
  datatype FinalTranscription = FinalTranscription(text: string, isComplete: bool)

  /** What is sent to the model: the audio payload and its mime type. */
  datatype TranscriptionRequest = TranscriptionRequest(payload: Chunk, mimeType: string)

  /** The requested mime type, or `audio/webm` when it is missing or empty. */
  function MimeOrDefault(mimeType: Option<string>): (r: string)
    ensures r != []
    ensures mimeType.Some? && mimeType.value != [] ==> r == mimeType.value
    ensures mimeType.None? || mimeType.value == [] ==> r == DefaultMimeType
  {
    if mimeType.Some? && mimeType.value != [] then mimeType.value else DefaultMimeType
  }

  /** The checks and the request of `getFinalTranscription` (lines 43-56):
      the configuration check comes before the emptiness check. */
  function PrepareRequest(configured: bool, buffer: seq<Chunk>, mimeType: Option<string>)
    : (r: Result<TranscriptionRequest, TranscriptionError>)
    ensures !configured ==> r == Failure(NotConfigured)
    ensures configured && buffer == [] ==> r == Failure(NoAudio)
    ensures r.Success? <==> configured && buffer != []
    ensures r.Success? ==> r.value.mimeType != []
  {
    if !configured then Failure(NotConfigured)
    else if |buffer| == 0 then Failure(NoAudio)
    else Success(TranscriptionRequest(Concat(buffer), MimeOrDefault(mimeType)))
  }

  /** The model call: the text it returns, or the message of what it threw. */
  type Transcriber = (Chunk, string) -> Result<string, string>

  /** The whole of `getFinalTranscription`: the request, the call, and the
      trimmed reply. */
  function FinalOutcome(configured: bool, buffer: seq<Chunk>, mimeType: Option<string>,
                        transcribe: Transcriber): Result<FinalTranscription, TranscriptionError>
  {
    var request := PrepareRequest(configured, buffer, mimeType);
    if request.Failure? then Failure(request.error)
    else
      var reply := transcribe(request.value.payload, request.value.mimeType);
      if reply.Failure? then Failure(Upstream(reply.error))
      else Success(FinalTranscription(Trim(reply.value), true))
  }

  /** When the service is not configured or nothing was buffered, the model
      is never called: the outcome is the same for every transcriber. */
  lemma ModelNotCalledOnEarlyFailure(configured: bool, buffer: seq<Chunk>, mimeType: Option<string>,
                                     t1: Transcriber, t2: Transcriber)
    requires !configured || buffer == []
    ensures FinalOutcome(configured, buffer, mimeType, t1) == FinalOutcome(configured, buffer, mimeType, t2)
    ensures FinalOutcome(configured, buffer, mimeType, t1).Failure?
    ensures FinalOutcome(configured, buffer, mimeType, t1).error.Message()
            == if !configured then NotConfiguredMessage else NoAudioMessage
  {
  }

  /** Otherwise the model receives the buffered fragments in arrival order
      with the chosen mime type, and the transcript is its trimmed reply,
      always marked complete. */
  lemma ModelReceivesBuffer(configured: bool, buffer: seq<Chunk>, mimeType: Option<string>,
                            transcribe: Transcriber)
    requires configured && buffer != []
    ensures var r := FinalOutcome(configured, buffer, mimeType, transcribe);
            var reply := transcribe(Concat(buffer), MimeOrDefault(mimeType));
            && (reply.Success? ==> r == Success(FinalTranscription(Trim(reply.value), true)))
            && (reply.Failure? ==> r == Failure(Upstream(reply.error)))
  {
  }

  /** The process-wide transcription service; `configured` is
      `isReady && genAI`, fixed at construction from the API key. */
  class GeminiTranscriptionService {
    const configured: bool
    var audioBuffer: seq<Chunk>
    var currentTranscript: string

    /** `apiKey` is `process.env.GEMINI_API_KEY`; an empty key counts as none. */
    constructor (apiKey: Option<string>)
      ensures configured == (apiKey.Some? && apiKey.value != [])
      ensures audioBuffer == [] && currentTranscript == []
    {
      configured := apiKey.Some? && apiKey.value != [];
      audioBuffer := [];
      currentTranscript := [];
    }

    method ResetSession()
      modifies this
      ensures audioBuffer == [] && currentTranscript == []
    {
      audioBuffer := [];
      currentTranscript := [];
    }

    method AddAudioChunk(chunk: Chunk)
      modifies this
      ensures audioBuffer == old(audioBuffer) + [chunk]
      ensures currentTranscript == old(currentTranscript)
    {
      audioBuffer := audioBuffer + [chunk];
    }

    /** Finalizing does not clear the buffer; a successful transcript is
        remembered as `currentTranscript`. */
    method GetFinalTranscription(mimeType: Option<string>, transcribe: Transcriber)
      returns (r: Result<FinalTranscription, TranscriptionError>)
      modifies this
      ensures r == FinalOutcome(configured, old(audioBuffer), mimeType, transcribe)
      ensures audioBuffer == old(audioBuffer)
      ensures currentTranscript == if r.Success? then r.value.text else old(currentTranscript)
    {
      if !configured {
        return Failure(NotConfigured);
      }
      if |audioBuffer| == 0 {
        return Failure(NoAudio);
      }
      var mime := if mimeType.Some? && mimeType.value != [] then mimeType.value else DefaultMimeType;
      var combined := Concat(audioBuffer);
      var reply := transcribe(combined, mime);
      if reply.Failure? {
        return Failure(Upstream(reply.error));
      }
      var text := Trim(reply.value);
      currentTranscript := text;
      r := Success(FinalTranscription(text, true));
    }
  }
}
