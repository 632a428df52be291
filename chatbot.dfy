/**
  * The Oracle endpoints: the dialogue reply with its immersion-safe error
  * message, and the neural voice guide (voice choice, text clean-up, the
  * empty-payload check and the outcome of speech synthesis).
  */
module Chatbot {
  import opened Base
  import opened Text

  const TamilVoice := "ta-IN-PallaviNeural"
  const EnglishVoice := "en-IN-NeerjaNeural"
  const InitiateFailure := "Failed to initiate voice tour"
  const EmptyPayload := "400: Text payload empty"
  const VoiceOffline := "Voice Node Offline"
  const WriteFailure := "IO Failure: Audio not written to static disk."

  // ---------------------------------------------------------------------
  // ask_oracle
  // ---------------------------------------------------------------------

  /** The JSON body of `ask_oracle`. */
  datatype OracleReply = OracleReply(status: string, response: string)

  function SyncFailureMessage(username: string): string {
    "Vanakkam " + username + ". The digital scrolls are temporarily out of sync. Please re-identify yourself or refresh the link."
  }

  /**
    * `ask_oracle`, given what the AI engine did: `Ok(answer)` or `Err(_)`
    * when it raised. The engine's text is passed through untouched; a failure
    * greets the traveller by name instead of exposing the error.
    */
  function AskOracle(username: string, engine: Result<string, string>): (reply: OracleReply)
    ensures reply.status == "success" <==> engine.Ok?
    ensures reply.status == "success" || reply.status == "error"
    ensures engine.Ok? ==> reply.response == engine.value
    ensures engine.Err? ==> reply.response == SyncFailureMessage(username)
  {
    match engine
    case Ok(answer) => OracleReply("success", answer)
    case Err(_) => OracleReply("error", SyncFailureMessage(username))
  }

  /** The error reply never depends on what went wrong inside the engine. */
  lemma OracleErrorHidesCause(username: string, e1: string, e2: string)
    ensures AskOracle(username, Err(e1)) == AskOracle(username, Err(e2))
    ensures StartsWith(AskOracle(username, Err(e1)).response, "Vanakkam " + username)
  {
    var m := SyncFailureMessage(username);
    var p := "Vanakkam " + username;
    assert m[..|p|] == p;
  }

  // ---------------------------------------------------------------------
  // voice_guide
  // ---------------------------------------------------------------------

  /** `"ta-IN-PallaviNeural" if lang == "ta" else "en-IN-NeerjaNeural"`. */
  function VoiceFor(lang: string): (v: string)
    ensures v == TamilVoice <==> lang == "ta"
    ensures v == TamilVoice || v == EnglishVoice
  {
    if lang == "ta" then TamilVoice else EnglishVoice
  }

  /**
    * `" ".join(text.split())`: the words of `text` separated by single
    * spaces; empty exactly when `text` is all whitespace.
    */
  function Normalize(text: string): (clean: string)
    ensures SingleSpaced(clean)
    ensures Words(clean) == Words(text)
    ensures clean == [] <==> forall i :: 0 <= i < |text| ==> IsSpace(text[i])
  {
    var ws := Words(text);
    JoinOfWordsShape(ws);
    WordsOfJoin(ws);
    Join(ws, ' ')
  }

  /** Cleaning twice is cleaning once. */
  lemma {:induction false} NormalizeIdempotent(text: string)
    ensures Normalize(Normalize(text)) == Normalize(text)
  {
    calc {
      Normalize(Normalize(text));
      Join(Words(Normalize(text)), ' ');
      Join(Words(text), ' ');
    }
  }

  /** A cleaned text neither starts nor ends with whitespace. */
  lemma NormalizedHasNoOuterSpace(text: string)
    ensures var c := Normalize(text); c != [] ==> !IsSpace(c[0]) && !IsSpace(c[|c| - 1])
  {
  }

  /** The speech request `edge_tts.Communicate(clean_text, voice)`. */
  datatype TtsCall = TtsCall(text: string, voice: string)

  /** What `communicate.save` did: raised with a message, or returned with the file present or not. */
  datatype TtsOutcome = Saved(written: bool) | TtsFailed(message: string)

  /** The JSON body of `voice_guide`. */
  datatype VoiceResponse = AudioUrl(url: string) | VoiceError(error: string, details: string)

  /** The speech request made, if any, and the response. */
  datatype VoiceGuideRun = VoiceGuideRun(call: Option<TtsCall>, response: VoiceResponse)

  function AudioPath(token: string): string {
    "/static/audio/oracle_" + token + ".mp3"
  }

  /**
    * `voice_guide(text, lang)`, where `token` stands for `uuid4().hex[:8]`
    * and `tts` for the behaviour of the speech service.
    */
  function VoiceGuide(text: string, lang: string, token: string, tts: TtsOutcome): (run: VoiceGuideRun)
    ensures run.call.None? <==> forall i :: 0 <= i < |text| ==> IsSpace(text[i])
    ensures run.call.Some? ==>
      && Words(run.call.value.text) == Words(text) && SingleSpaced(run.call.value.text)
      && run.call.value.voice == VoiceFor(lang)
    ensures run.response.AudioUrl? <==> run.call.Some? && tts == Saved(true)
    ensures run.response.AudioUrl? ==> run.response.url == AudioPath(token)
    ensures run.call.None? ==> run.response == VoiceError(InitiateFailure, EmptyPayload)
    ensures run.call.Some? && tts.TtsFailed? ==> run.response == VoiceError(VoiceOffline, tts.message)
    ensures run.call.Some? && tts == Saved(false) ==> run.response == VoiceError(InitiateFailure, WriteFailure)
  {
    var voice := VoiceFor(lang);
    var clean := Normalize(text);
    if clean == [] then VoiceGuideRun(None, VoiceError(InitiateFailure, EmptyPayload))
    else
      var call := Some(TtsCall(clean, voice));
      match tts
      case TtsFailed(msg) => VoiceGuideRun(call, VoiceError(VoiceOffline, msg))
      case Saved(written) =>
        if written then VoiceGuideRun(call, AudioUrl(AudioPath(token)))
        else VoiceGuideRun(call, VoiceError(InitiateFailure, WriteFailure))
  }

  /** Layout of the text never matters: texts with the same words produce the same request and response. */
  lemma VoiceGuideSeesOnlyWords(t1: string, t2: string, lang: string, token: string, tts: TtsOutcome)
    requires Words(t1) == Words(t2)
    ensures VoiceGuide(t1, lang, token, tts) == VoiceGuide(t2, lang, token, tts)
  {
  }
}
