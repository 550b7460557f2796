/**
 * The session controller of the voice assistant: the state machine over the
 * assistant's states, the playback scheduler that chains decoded audio
 * chunks on the output device, the transcript accumulator with its rolling
 * history, the action-directive scan of every transcript fragment, and the
 * classification of errors into a key problem or a general failure.
 *
 * The browser, the audio devices and the live-session service are outside
 * the model: each of their callbacks is a method here, taking as parameters
 * what the browser would supply (the device clock, the decoded chunk's
 * duration, the error's message).
 */
module Session {
  import opened Wrappers
  import opened JsString
  import opened ActionParser
  import opened Playback
  import opened Transcript

  /** The assistant's states. */
  datatype NovaState = Idle | Auth | Connecting | Listening | Speaking | Error

  /** The text that marks an error as a missing or unusable API key. */
  const KeyNotFound := "Requested entity was not found"
  /** Shown when the live session fails because of the key. */
  const InvalidKeyMessage := "আপনার এপিআই কী-টি বৈধ নয় অথবা বিলিং সেটআপ নেই।"
  /** Shown when the live session fails for any other reason. */
  const ConnectionMessage := "কানেকশনে সমস্যা হয়েছে। অনুগ্রহ করে আবার চেষ্টা করুন।"
  /** Shown when starting a call fails with an error that has no message. */
  const FallbackStartMessage := "একটি এরর হয়েছে।"

  /** The state an error leads to when starting or running a call: the key
      screen when its message mentions the missing entity, the error state
      otherwise. An error without a message is never a key error. */
  function Classify(message: Option<string>): (s: NovaState)
    ensures s == Auth <==> message.Some? && exists i: nat :: OccursAt(message.value, KeyNotFound, i)
    ensures s == Auth || s == Error
  {
    if message.Some? && Contains(message.value, KeyNotFound) then Auth else Error
  }

  /** The state after a failed image request: only a key error changes it. */
  function AfterImageError(state: NovaState, message: Option<string>): (s: NovaState)
    ensures Classify(message) == Auth ==> s == Auth
    ensures Classify(message) == Error ==> s == state
  {
    if Classify(message) == Auth then Auth else state
  }

  /** The message shown when starting a call fails with something other than
      a key error: the error's own message when it has a non-empty one, the
      generic one otherwise. */
  function StartErrorMessage(message: Option<string>): (m: string)
    ensures m != ""
    ensures message.Some? && message.value != "" ==> m == message.value
    ensures !(message.Some? && message.value != "") ==> m == FallbackStartMessage
  {
    if message.Some? && message.value != "" then message.value else FallbackStartMessage
  }

  /** What the main button does: start a call, or ask the open session to
      close. */
  datatype ButtonAction = StartCall | CloseSession

  /** The button starts a call exactly when there is none in progress. */
  function ButtonChoice(state: NovaState): (a: ButtonAction)
    ensures a == StartCall <==> state == Idle || state == Error
  {
    if state == Idle || state == Error then StartCall else CloseSession
  }

  /** The parts of one message from the live session that the controller
      reads: the duration of its decoded audio chunk, if it carries audio;
      its transcription fragment, if any; and its two flags. */
  datatype ServerMessage = ServerMessage(
    audio: Option<real>,
    transcript: Option<string>,
    turnComplete: bool,
    interrupted: bool)

  class IshuSession {
    var state: NovaState
    var errorMessage: Option<string>
    /** The audio contexts have been created. */
    var audioReady: bool
    /** The live session has been established and can be closed. */
    var connected: bool
    /** When the next audio chunk may start on the output device's clock. */
    var cursor: real
    /** The buffer sources scheduled and not yet ended or cleared. */
    var active: set<nat>
    /** The id the next buffer source gets. */
    var nextSource: nat
    /** The sources an interruption has told to stop. */
    var stopped: set<nat>
    /** The text of the assistant's current turn so far. */
    var outputText: string
    /** The texts of the latest finished turns, newest first. */
    var history: seq<string>
    /** The chunks scheduled since the cursor was last reset. */
    ghost var run: seq<Unit>

    ghost predicate Valid()
      reads this
    {
      && (forall source :: source in active ==> source < nextSource)
      && Scheduled(run)
      && cursor == EndOf(run)
      && (state == Speaking ==> active != {})
      && |history| <= HistoryLimit
    }

    constructor ()
      ensures Valid()
      ensures state == Idle && errorMessage == None && !audioReady && !connected
      ensures cursor == 0.0 && active == {} && nextSource == 0 && stopped == {} && run == []
      ensures outputText == "" && history == []
    {
      state := Idle;
      errorMessage := None;
      audioReady := false;
      connected := false;
      cursor := 0.0;
      active := {};
      nextSource := 0;
      stopped := {};
      outputText := "";
      history := [];
      run := [];
    }

    /** Creates the audio contexts the first time only; `created` tells
        whether this call created them. */
    method InitAudio() returns (created: bool)
      modifies this`audioReady
      ensures audioReady
      ensures created == !old(audioReady)
    {
      created := !audioReady;
      if created {
        audioReady := true;
      }
    }

    /** Starting a call clears the error, enters the connecting state and
        makes sure the audio contexts exist. */
    method Start()
      requires Valid()
      modifies this`errorMessage, this`state, this`audioReady
      ensures Valid()
      ensures errorMessage == None && state == Connecting && audioReady
    {
      errorMessage := None;
      state := Connecting;
      var _ := InitAudio();
    }

    /** The live session has been handed back and can now be closed. */
    method OnConnected()
      modifies this`connected
      ensures connected
    {
      connected := true;
    }

    /** The live session is open: the assistant listens. */
    method OnOpen()
      requires Valid()
      modifies this`state
      ensures Valid() && state == Listening
    {
      state := Listening;
    }

    /** Schedules a decoded chunk of `duration` seconds that arrived when the
        device clock read `now`: it starts at `max(cursor, now)` as a fresh
        source, and the cursor moves to its end. */
    method ScheduleChunk(now: real, duration: real) returns (source: nat)
      requires Valid() && duration >= 0.0
      modifies this`state, this`cursor, this`active, this`nextSource, this`run
      ensures Valid()
      ensures state == Speaking
      ensures source == old(nextSource) && source !in old(active) && nextSource == source + 1
      ensures active == old(active) + {source}
      ensures run == old(run) + [Unit(source, now, Max(old(cursor), now), duration)]
      ensures old(cursor) >= now ==> run[|run| - 1].start == old(cursor)
      ensures old(cursor) <= now ==> run[|run| - 1].start == now
      ensures cursor == run[|run| - 1].start + duration && cursor >= old(cursor)
    {
      var start := Max(cursor, now);
      source := nextSource;
      var u := Unit(source, now, start, duration);
      ScheduledExtend(run, u);
      state := Speaking;
      nextSource := source + 1;
      run := run + [u];
      cursor := start + duration;
      active := active + {source};
    }

    /** A source has finished playing: it leaves the set, and the assistant
        is listening again once no source is left. */
    method OnEnded(source: nat)
      requires Valid() && source < nextSource
      modifies this`active, this`state
      ensures Valid()
      ensures active == old(active) - {source}
      ensures active == {} ==> state == Listening
      ensures active != {} ==> state == old(state)
    {
      active := active - {source};
      if active == {} {
        state := Listening;
      }
    }

    /** A transcription fragment of the assistant's speech: it is added to
        the current turn's text, and the fragment alone is scanned for
        image directives, whose prompts are returned for image requests. */
    method AppendTranscript(text: string) returns (prompts: seq<string>)
      modifies this`outputText
      ensures outputText == old(outputText) + text
      ensures prompts == Dispatched(text)
    {
      outputText := outputText + text;
      prompts := HandleActionParsing(text);
    }

    /** The assistant's turn is complete: a turn with text joins the
        history, which keeps the latest three, and the text is cleared. */
    method CompleteTurn()
      requires Valid()
      modifies this`outputText, this`history
      ensures Valid()
      ensures outputText == ""
      ensures old(outputText) != "" ==> history == Rolled(old(outputText), old(history))
      ensures old(outputText) == "" ==> history == old(history)
    {
      if outputText != "" {
        history := Rolled(outputText, history);
        outputText := "";
      }
    }

    /** The user spoke over the assistant: every active source is told to
        stop (a source that refuses is ignored), the set is cleared, the
        cursor goes back to 0 and the assistant listens. */
    method Interrupt()
      requires Valid()
      modifies this`active, this`stopped, this`cursor, this`run, this`state
      ensures Valid()
      ensures stopped == old(stopped) + old(active)
      ensures active == {} && cursor == 0.0 && run == [] && state == Listening
    {
      var pending := active;
      while pending != {}
        invariant active == old(active) && pending <= active
        invariant stopped == old(stopped) + (active - pending)
        decreases pending
      {
        var source :| source in pending;
        stopped := stopped + {source};
        pending := pending - {source};
      }
      active := {};
      cursor := 0.0;
      run := [];
      state := Listening;
    }

    /** The transcription part of a message: its fragment, if any, then its
        turn-complete flag. */
    method ReadTranscript(fragment: Option<string>, turnComplete: bool) returns (prompts: seq<string>)
      requires Valid()
      modifies this`outputText, this`history
      ensures Valid()
      ensures prompts == if fragment.Some? then Dispatched(fragment.value) else []
      ensures var text := old(outputText) + (if fragment.Some? then fragment.value else "");
        if turnComplete && text != "" then
          outputText == "" && history == Rolled(text, old(history))
        else
          outputText == text && history == old(history)
    {
      prompts := [];
      assert outputText + "" == outputText;
      if fragment.Some? {
        prompts := AppendTranscript(fragment.value);
      }
      if turnComplete {
        CompleteTurn();
      }
    }

    /** One message from the live session, handled in the order audio,
        transcription, turn completion, interruption; `now` is the device
        clock when it arrived. The prompts of the image directives in its
        transcription fragment are returned. */
    method OnMessage(msg: ServerMessage, now: real) returns (prompts: seq<string>)
      requires Valid()
      requires msg.audio.Some? ==> msg.audio.value >= 0.0
      modifies this`state, this`cursor, this`active, this`nextSource, this`stopped, this`run
      modifies this`outputText, this`history
      ensures Valid()
      ensures nextSource == old(nextSource) + (if msg.audio.Some? then 1 else 0)
      ensures var scheduled := if msg.audio.Some? then {old(nextSource)} else {};
        if msg.interrupted then
          && active == {} && cursor == 0.0 && run == [] && state == Listening
          && stopped == old(stopped) + old(active) + scheduled
        else
          && active == old(active) + scheduled
          && stopped == old(stopped)
          && (msg.audio.Some? ==>
                && state == Speaking
                && run == old(run) + [Unit(old(nextSource), now, Max(old(cursor), now), msg.audio.value)]
                && cursor == Max(old(cursor), now) + msg.audio.value)
          && (msg.audio.None? ==> state == old(state) && cursor == old(cursor) && run == old(run))
      ensures prompts == if msg.transcript.Some? then Dispatched(msg.transcript.value) else []
      ensures var text := old(outputText) + (if msg.transcript.Some? then msg.transcript.value else "");
        if msg.turnComplete && text != "" then
          outputText == "" && history == Rolled(text, old(history))
        else
          outputText == text && history == old(history)
    {
      if msg.audio.Some? {
        var _ := ScheduleChunk(now, msg.audio.value);
      }
      prompts := ReadTranscript(msg.transcript, msg.turnComplete);
      if msg.interrupted {
        Interrupt();
      }
    }

    /** The live session reported an error. */
    method OnError(message: Option<string>)
      requires Valid()
      modifies this`state, this`errorMessage
      ensures Valid()
      ensures state == Classify(message)
      ensures state == Auth ==> errorMessage == Some(InvalidKeyMessage)
      ensures state == Error ==> errorMessage == Some(ConnectionMessage)
    {
      if Classify(message) == Auth {
        state := Auth;
        errorMessage := Some(InvalidKeyMessage);
      } else {
        state := Error;
        errorMessage := Some(ConnectionMessage);
      }
    }

    /** Starting the call failed (no microphone, no connection, ...). A key
        error leaves the error message as it was. */
    method OnStartError(message: Option<string>)
      requires Valid()
      modifies this`state, this`errorMessage
      ensures Valid()
      ensures state == Classify(message)
      ensures state == Auth ==> errorMessage == old(errorMessage)
      ensures state == Error ==> errorMessage == Some(StartErrorMessage(message))
    {
      if Classify(message) == Auth {
        state := Auth;
      } else {
        state := Error;
        errorMessage := Some(StartErrorMessage(message));
      }
    }

    /** An image request failed: only a key error changes the state. */
    method OnImageError(message: Option<string>)
      requires Valid()
      modifies this`state
      ensures Valid()
      ensures state == AfterImageError(old(state), message)
    {
      if Classify(message) == Auth {
        state := Auth;
      }
    }

    /** The live session closed. */
    method OnClose()
      requires Valid()
      modifies this`state
      ensures Valid() && state == Idle
    {
      state := Idle;
    }

    /** The key re-selection button; `dialogAvailable` says whether the host
        page offers the key dialog. Once the dialog has been shown the
        assistant is idle with no error. */
    method OpenKey(dialogAvailable: bool)
      requires Valid()
      modifies this`state, this`errorMessage
      ensures Valid()
      ensures dialogAvailable ==> state == Idle && errorMessage == None
      ensures !dialogAvailable ==> state == old(state) && errorMessage == old(errorMessage)
    {
      if dialogAvailable {
        state := Idle;
        errorMessage := None;
      }
    }

    /** The main button, shown in every state but the key screen. It starts a
        call when none is in progress; otherwise it asks the session to close,
        which only happens when one has been established (`closeRequested`),
        and the close itself arrives later as `OnClose`. */
    method PressButton() returns (action: ButtonAction, closeRequested: bool)
      requires Valid() && state != Auth
      modifies this`errorMessage, this`state, this`audioReady
      ensures Valid()
      ensures action == ButtonChoice(old(state))
      ensures action == StartCall ==> state == Connecting && errorMessage == None && audioReady
      ensures action == CloseSession ==>
        state == old(state) && errorMessage == old(errorMessage) && audioReady == old(audioReady)
      ensures closeRequested <==> action == CloseSession && connected
    {
      if state == Idle || state == Error {
        action := StartCall;
        closeRequested := false;
        Start();
      } else {
        action := CloseSession;
        closeRequested := connected;
      }
    }
  }
}
