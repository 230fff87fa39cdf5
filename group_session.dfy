/** The session state of app_v01.py: the group board, each user's private
    exchange with their assistant, and the text box bound to `input_box`.
    Clock readings are passed in as opaque integers. */
module GroupSession {
  import opened Text
  import opened GroupChat

  /** `{"personal_log": [...], "feedback_log": [...]}` for one user. */
  datatype MalState = MalState(personalLog: seq<LogEntry>, feedbackLog: seq<LogEntry>)

  /** What the board can hold: posts by known users whose bodies are
      non-empty, stripped and at most 121 characters long. */
  predicate BoardWellFormed(board: seq<GroupMessage>) {
    forall i :: 0 <= i < |board| ==>
      && board[i].sender in Users
      && board[i].text != []
      && IsStripped(board[i].text)
      && |board[i].text| <= MaxBody + 1
  }

  /** A user's private state: every text they sent is non-blank and
      stripped, and it got exactly one feedback. */
  predicate StateWellFormed(m: MalState) {
    && |m.personalLog| == |m.feedbackLog|
    && forall i :: 0 <= i < |m.personalLog| ==>
         m.personalLog[i].text != [] && IsStripped(m.personalLog[i].text)
  }

  /** Posting a well-formed message keeps the board well formed. */
  lemma BoardAppend(board: seq<GroupMessage>, msg: GroupMessage)
    requires BoardWellFormed(board)
    requires msg.sender in Users && msg.text != [] && IsStripped(msg.text) && |msg.text| <= MaxBody + 1
    ensures BoardWellFormed(board + [msg])
  {
    assert forall i :: 0 <= i < |board| ==> (board + [msg])[i] == board[i];
  }

  /** Logging one non-blank stripped text together with its feedback keeps a
      user's state well formed. */
  lemma StateAppend(m: MalState, personal: LogEntry, feedback: LogEntry)
    requires StateWellFormed(m)
    requires personal.text != [] && IsStripped(personal.text)
    ensures StateWellFormed(MalState(m.personalLog + [personal], m.feedbackLog + [feedback]))
  {
    assert forall i :: 0 <= i < |m.personalLog| ==> (m.personalLog + [personal])[i] == m.personalLog[i];
  }

  /** Replacing one user's well-formed state keeps every user's state well
      formed and the set of users the same. */
  lemma StatesUpdate(states: map<string, MalState>, u: string, m: MalState)
    requires (forall v :: v in states <==> v in Users) && u in Users
    requires forall v :: v in states ==> StateWellFormed(states[v])
    requires StateWellFormed(m)
    ensures var states' := states[u := m];
            && (forall v :: v in states' <==> v in Users)
            && (forall v :: v in states' ==> StateWellFormed(states'[v]))
  {
  }

  class Session {
    var groupLog: seq<GroupMessage>
    var malStates: map<string, MalState>
    var inputBox: string

    ghost predicate Valid()
      reads this
    {
      && (forall u :: u in malStates <==> u in Users)
      && (forall u :: u in malStates ==> StateWellFormed(malStates[u]))
      && BoardWellFormed(groupLog)
    }

    /** The first run of the script: an empty board, empty logs for every
        user, an empty text box. */
    constructor ()
      ensures Valid()
      ensures groupLog == [] && inputBox == []
      ensures forall u :: u in Users ==> malStates[u] == MalState([], [])
    {
      groupLog := [];
      malStates := map u | u in Users :: MalState([], []);
      inputBox := "";
    }

    /** Typing into the text area bound to `input_box`. */
    method EditInput(text: string)
      requires Valid()
      modifies this
      ensures Valid()
      ensures inputBox == text
      ensures groupLog == old(groupLog) && malStates == old(malStates)
    {
      inputBox := text;
    }

    /** `send_to_mal`, the button callback. A blank box changes nothing (the
        box is not cleared). Otherwise the stripped text goes to the sender's
        personal log, its rewrite to the board under the sender's name, the
        rewrite's feedback to the sender's feedback log, and the box is
        emptied; no other user's state changes. */
    method SendToMal(currentUser: string, personalTime: int, groupTime: int, feedbackTime: int)
      requires Valid() && currentUser in Users
      modifies this
      ensures Valid()
      ensures Strip(old(inputBox)) == [] ==>
                groupLog == old(groupLog) && malStates == old(malStates) && inputBox == old(inputBox)
      ensures Strip(old(inputBox)) != [] ==>
                var text := Strip(old(inputBox));
                var rw := RewriteForGroup(currentUser, text, old(groupLog));
                var m := old(malStates)[currentUser];
                && groupLog == old(groupLog) + [GroupMessage(groupTime, currentUser, rw.groupMsg)]
                && malStates == old(malStates)[currentUser :=
                     MalState(m.personalLog + [LogEntry(personalTime, text)],
                              m.feedbackLog + [LogEntry(feedbackTime, rw.feedback)])]
                && inputBox == []
    {
      var text := Strip(inputBox);
      if text == [] {
        return;
      }
      Deliver(currentUser, text, personalTime, groupTime, feedbackTime);
    }

    /** The part of `send_to_mal` after the blank check, on the stripped,
        non-blank `text`: log it, post its rewrite, log the feedback, clear
        the box. */
    method Deliver(currentUser: string, text: string, personalTime: int, groupTime: int, feedbackTime: int)
      requires Valid() && currentUser in Users
      requires text != [] && IsStripped(text)
      modifies this
      ensures Valid()
      ensures var rw := RewriteForGroup(currentUser, text, old(groupLog));
              var m := old(malStates)[currentUser];
              && groupLog == old(groupLog) + [GroupMessage(groupTime, currentUser, rw.groupMsg)]
              && malStates == old(malStates)[currentUser :=
                   MalState(m.personalLog + [LogEntry(personalTime, text)],
                            m.feedbackLog + [LogEntry(feedbackTime, rw.feedback)])]
              && inputBox == []
    {
      var m := malStates[currentUser];
      var rw := RewriteForGroup(currentUser, text, groupLog);
      var post := GroupMessage(groupTime, currentUser, rw.groupMsg);
      var state := MalState(m.personalLog + [LogEntry(personalTime, text)],
                            m.feedbackLog + [LogEntry(feedbackTime, rw.feedback)]);
      StripStripped(text);
      BoardAppend(groupLog, post);
      StateAppend(m, LogEntry(personalTime, text), LogEntry(feedbackTime, rw.feedback));
      StatesUpdate(malStates, currentUser, state);
      groupLog := groupLog + [post];
      malStates := malStates[currentUser := state];
      inputBox := "";
    }
  }
}
