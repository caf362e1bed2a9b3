/**
 * The game screen's state and its event handlers (App.tsx). The remote
 * narrative service is not called: each awaited call is split at its `await`
 * into a Begin method (what the handler does before the call) and a Finish
 * method that receives the call's outcome as a Reply; the Handle methods run
 * both halves back to back, which the single call in flight allows.
 */
module App {
  import opened Wrappers
  import opened GameTypes
  import opened JsString

  /** The model entry appended when an action's call fails. */
  const FallbackText: string := "Error de sistema... Reintentando conexi\U{00F3}n..."

  /** The model entry a returned call adds to the transcript. */
  function ReplyEntry(reply: Reply): (e: Entry)
    ensures e.role == Model
  {
    match reply
    case Ok(response) => Entry(Model, response.narrative)
    case Err => Entry(Model, FallbackText)
  }

  /** Which awaited call, if any, has not returned yet. */
  datatype Call = NoCall | StartCall | ActionCall

  /** Neighbouring transcript entries always come from different roles. */
  predicate Alternates(h: seq<Entry>)
  {
    forall k :: 0 < k < |h| ==> h[k - 1].role != h[k].role
  }

  /** Appending an entry of the other role than the last keeps the transcript alternating. */
  lemma AppendKeepsAlternating(h: seq<Entry>, e: Entry)
    requires Alternates(h) && (h == [] || h[|h| - 1].role != e.role)
    ensures Alternates(h + [e])
  {
  }

  /** The transcript is not empty and its last entry has the given role. */
  predicate EndsWith(h: seq<Entry>, role: Role)
  {
    |h| > 0 && h[|h| - 1].role == role
  }

  class Game {
    var status: GameStatus
    /** The reply that drives the stat bars and the choice buttons, or null. */
    var currentResponse: Option<GameResponse>
    /** The transcript. */
    var history: seq<Entry>
    /** The free-text input box. */
    var input: string
    var loading: bool
    /** The newest model entry is still being revealed. */
    var isTyping: bool
    /** The call whose continuation is still to run. */
    ghost var pending: Call

    /**
     * `loading` is set exactly while a call is out; a start call runs on an
     * emptied transcript; an action call runs while playing with the controls
     * hidden and the user's entry last; otherwise every user entry has been
     * answered. User and model entries alternate throughout.
     */
    ghost predicate Valid()
      reads this
    {
      && (loading <==> pending != NoCall)
      && (pending == StartCall ==> history == [])
      && (pending == ActionCall ==>
            status == Playing && currentResponse == None && EndsWith(history, User))
      && (pending != ActionCall ==> history == [] || EndsWith(history, Model))
      && Alternates(history)
    }

    /** The first render: idle, empty, nothing loading. */
    constructor ()
      ensures Valid() && pending == NoCall
      ensures status == Idle && currentResponse == None && history == []
      ensures input == "" && !loading && !isTyping
    {
      status, currentResponse, history := Idle, None, [];
      input, loading, isTyping := "", false, false;
      pending := NoCall;
    }

    /** The guard of `handleAction`: the action is not blank and the game is playing and idle. */
    predicate AcceptsAction(actionText: string)
      reads this
    {
      !IsBlank(actionText) && !loading && status == Playing
    }

    /** The choice buttons are on screen. */
    predicate ChoicesShown()
      reads this
    {
      status == Playing && !loading && currentResponse.Some? && !isTyping
    }

    /** The input box is disabled. */
    predicate InputDisabled()
      reads this
    {
      loading || isTyping
    }

    /** The submit button is enabled. */
    predicate SubmitEnabled()
      reads this
    {
      status == Playing && !loading && !isTyping && !IsBlank(input)
    }

    // -------------------------------------------------------------------------
    // handleStartGame

    /** `handleStartGame` up to its `await`: loading, with the transcript cleared. */
    method BeginStart()
      requires Valid() && !loading
      modifies this
      ensures Valid() && pending == StartCall
      ensures loading && history == []
      ensures status == old(status) && currentResponse == old(currentResponse)
      ensures input == old(input) && isTyping == old(isTyping)
    {
      loading := true;
      history := [];
      pending := StartCall;
    }

    /**
     * `handleStartGame` after its `await`. A reply starts play on a transcript
     * holding only its narrative, which is then revealed; a failure (reported
     * by an alert) leaves the status, the reply shown and the emptied
     * transcript as they were. Either way loading ends.
     */
    method FinishStart(reply: Reply)
      requires Valid() && pending == StartCall
      modifies this
      ensures Valid() && pending == NoCall && !loading
      ensures input == old(input)
      ensures reply.Ok? ==>
        && status == Playing
        && currentResponse == Some(reply.response)
        && history == [Entry(Model, reply.response.narrative)]
        && isTyping
      ensures reply.Err? ==>
        && status == old(status)
        && currentResponse == old(currentResponse)
        && history == old(history) == []
        && isTyping == old(isTyping)
    {
      match reply {
        case Ok(response) =>
          status := Playing;
          currentResponse := Some(response);
          history := [Entry(Model, response.narrative)];
          isTyping := true;
        case Err =>
      }
      loading := false;
      pending := NoCall;
    }

    /** The whole of `handleStartGame` for a call with the given outcome. */
    method HandleStartGame(reply: Reply)
      requires Valid() && !loading
      modifies this
      ensures Valid() && pending == NoCall && !loading
      ensures input == old(input)
      ensures reply.Ok? ==>
        && status == Playing
        && currentResponse == Some(reply.response)
        && history == [Entry(Model, reply.response.narrative)]
        && isTyping
      ensures reply.Err? ==>
        && status == old(status)
        && currentResponse == old(currentResponse)
        && history == []
        && isTyping == old(isTyping)
    {
      BeginStart();
      FinishStart(reply);
    }

    // -------------------------------------------------------------------------
    // handleAction

    /**
     * `handleAction` up to its `await`. A blank action, a call already out or
     * a status other than playing changes nothing. Otherwise the action is
     * appended as a user entry, the input is cleared, loading starts and the
     * controls are hidden by dropping the current reply.
     */
    method BeginAction(actionText: string) returns (accepted: bool)
      requires Valid()
      modifies this
      ensures Valid()
      ensures accepted == old(AcceptsAction(actionText))
      ensures !accepted ==> unchanged(this)
      ensures accepted ==>
        && pending == ActionCall
        && history == old(history) + [Entry(User, actionText)]
        && input == ""
        && loading
        && currentResponse == None
        && status == old(status)
        && isTyping == old(isTyping)
    {
      accepted := AcceptsAction(actionText);
      if !accepted {
        return;
      }
      AppendKeepsAlternating(history, Entry(User, actionText));
      history := history + [Entry(User, actionText)];
      input := "";
      loading := true;
      currentResponse := None;
      pending := ActionCall;
    }

    /**
     * `handleAction` after its `await`. A reply adds its narrative, becomes
     * the current reply and is revealed; it ends the game when `gameOver` is
     * set, whatever `victory` says, wins it when only `victory` is set, and
     * keeps playing otherwise. A failure adds the fallback text and changes
     * nothing else. Either way loading ends.
     */
    method FinishAction(reply: Reply)
      requires Valid() && pending == ActionCall
      modifies this
      ensures Valid() && pending == NoCall && !loading
      ensures input == old(input)
      ensures reply.Ok? ==>
        && history == old(history) + [Entry(Model, reply.response.narrative)]
        && currentResponse == Some(reply.response)
        && isTyping
      ensures reply.Ok? && reply.response.gameOver ==> status == GameOver
      ensures reply.Ok? && !reply.response.gameOver && reply.response.victory ==> status == Victory
      ensures reply.Ok? && !reply.response.gameOver && !reply.response.victory ==> status == Playing
      ensures reply.Err? ==>
        && history == old(history) + [Entry(Model, FallbackText)]
        && status == old(status)
        && currentResponse == None
        && isTyping == old(isTyping)
    {
      match reply {
        case Ok(response) =>
          AppendKeepsAlternating(history, Entry(Model, response.narrative));
          history := history + [Entry(Model, response.narrative)];
          currentResponse := Some(response);
          isTyping := true;
          if response.gameOver {
            status := GameOver;
          } else if response.victory {
            status := Victory;
          }
        case Err =>
          AppendKeepsAlternating(history, Entry(Model, FallbackText));
          history := history + [Entry(Model, FallbackText)];
      }
      loading := false;
      pending := NoCall;
    }

    /**
     * The whole of `handleAction` for a call with the given outcome. A
     * refused action changes nothing; an accepted one adds the user entry
     * followed by the model's narrative or the fallback text, in that order,
     * and leaves nothing loading.
     */
    method HandleAction(actionText: string, reply: Reply) returns (accepted: bool)
      requires Valid()
      modifies this
      ensures Valid()
      ensures accepted == old(AcceptsAction(actionText))
      ensures !accepted ==> unchanged(this)
      ensures accepted ==> pending == NoCall && !loading && input == ""
      ensures accepted ==> history == old(history) + [Entry(User, actionText), ReplyEntry(reply)]
      ensures accepted && reply.Ok? ==>
        && currentResponse == Some(reply.response)
        && isTyping
        && status == (if reply.response.gameOver then GameOver
                      else if reply.response.victory then Victory
                      else Playing)
      ensures accepted && reply.Err? ==>
        && status == old(status) == Playing
        && currentResponse == None
        && isTyping == old(isTyping)
    {
      accepted := BeginAction(actionText);
      if accepted {
        FinishAction(reply);
        assert old(history) + [Entry(User, actionText)] + [history[|history| - 1]]
            == old(history) + [Entry(User, actionText), history[|history| - 1]];
      }
    }

    /** The form is submitted: the action is whatever the input box holds. */
    method SubmitInput(reply: Reply) returns (accepted: bool)
      requires Valid()
      modifies this
      ensures Valid()
      ensures accepted == old(AcceptsAction(input))
      ensures !accepted ==> unchanged(this)
      ensures accepted ==>
        && history == old(history) + [Entry(User, old(input)), ReplyEntry(reply)]
        && input == "" && !loading
        && currentResponse == (if reply.Ok? then Some(reply.response) else None)
        && status == (if reply.Err? || !(reply.response.gameOver || reply.response.victory) then Playing
                      else if reply.response.gameOver then GameOver
                      else Victory)
        && isTyping == (reply.Ok? || old(isTyping))
    {
      accepted := HandleAction(input, reply);
    }

    /**
     * Choice button k is clicked; it exists only while the choices are shown.
     * The choice is then accepted exactly when it is not blank.
     */
    method PickChoice(k: nat, reply: Reply) returns (accepted: bool)
      requires Valid() && ChoicesShown() && k < |currentResponse.value.choices|
      modifies this
      ensures Valid() && !loading
      ensures accepted == !IsBlank(old(currentResponse.value.choices[k]))
      ensures !accepted ==> unchanged(this)
      ensures accepted ==>
        && history == old(history) + [Entry(User, old(currentResponse.value.choices[k])), ReplyEntry(reply)]
        && input == ""
        && currentResponse == (if reply.Ok? then Some(reply.response) else None)
        && status == (if reply.Err? || !(reply.response.gameOver || reply.response.victory) then Playing
                      else if reply.response.gameOver then GameOver
                      else Victory)
        && isTyping == reply.Ok?
    {
      accepted := HandleAction(currentResponse.value.choices[k], reply);
    }

    // -------------------------------------------------------------------------
    // Other events

    /** The reveal of the newest narrative finished (`onComplete`). */
    method TypingDone()
      requires Valid()
      modifies this
      ensures Valid() && !isTyping
      ensures status == old(status) && currentResponse == old(currentResponse)
      ensures history == old(history) && input == old(input)
      ensures loading == old(loading) && pending == old(pending)
    {
      isTyping := false;
    }

    /** The user edits the input box, which is possible only while it is enabled. */
    method EditInput(s: string)
      requires Valid() && !InputDisabled()
      modifies this
      ensures Valid() && input == s
      ensures status == old(status) && currentResponse == old(currentResponse)
      ensures history == old(history) && loading == old(loading)
      ensures isTyping == old(isTyping) && pending == old(pending)
    {
      input := s;
    }

    // -------------------------------------------------------------------------
    // What the enabling conditions guarantee

    /** While a call is out, no control that leads to `handleAction` is usable. */
    lemma ControlsDisabledWhileLoading()
      requires Valid() && pending != NoCall
      ensures !ChoicesShown() && !SubmitEnabled() && InputDisabled()
    {
    }

    /** A game that is over or won accepts no action. */
    lemma FinishedGameAcceptsNoAction(actionText: string)
      requires status == GameOver || status == Victory
      ensures !AcceptsAction(actionText)
    {
    }

    /** An enabled submit button means the typed action will be accepted. */
    lemma SubmitEnabledMeansAccepted()
      requires SubmitEnabled()
      ensures AcceptsAction(input)
    {
    }
  }

  /** Starting a game and taking one action, with the service's replies given. */
  method Session()
  {
    var day1 := GameResponse("Day one.", GameStats(50, 80, 100),
      ["Teach calmly", "Crack a joke", "Give a pop quiz"], false, false, None);
    var panic := GameResponse("Students panic.", GameStats(20, 80, 100),
      ["Apologise", "Double down", "Cancel class"], false, false, None);
    var g := new Game();
    g.HandleStartGame(Ok(day1));
    assert g.status == Playing && g.history == [Entry(Model, "Day one.")];
    assert !g.ChoicesShown();
    g.TypingDone();
    assert g.ChoicesShown();
    assert !IsBlank("Give a pop quiz") by {
      BlankIffAllWhitespace("Give a pop quiz");
      assert !IsWhitespace("Give a pop quiz"[0]);
    }
    var accepted := g.PickChoice(2, Ok(panic));
    assert accepted;
    assert g.history == [Entry(Model, "Day one."), Entry(User, "Give a pop quiz"), Entry(Model, "Students panic.")];
    assert g.status == Playing && g.currentResponse == Some(panic);
  }

  /**
   * A restart that fails while the first narrative is still being revealed:
   * the transcript is left empty, so nothing remains to finish the reveal,
   * yet `isTyping` stays set and keeps the input and the choices disabled.
   */
  method FailedRestartWhileRevealing()
  {
    var day1 := GameResponse("Day one.", GameStats(50, 80, 100),
      ["Teach calmly", "Crack a joke", "Give a pop quiz"], false, false, None);
    var g := new Game();
    g.HandleStartGame(Ok(day1));
    assert g.isTyping && g.status == Playing;
    g.HandleStartGame(Err);
    assert g.history == [] && g.isTyping && g.status == Playing;
    assert g.InputDisabled() && !g.ChoicesShown();
  }
}
