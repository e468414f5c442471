/**
 * The state rules of the analyzer component
 * (components/argument-analyzer.tsx): the conversation transcript kept in
 * session storage and its 30-minute expiry, newest-first message order,
 * the first-visit tutorial and its stepper, the collapse state of the
 * rendered sections, and the blank-input guard.
 *
 * Session storage is a parameter holding the stored transcript (`None`
 * when nothing is stored); JSON encoding is not modelled, so a stored
 * transcript reads back as the list that was written.  The clock is the
 * parameter `now`, in milliseconds.
 */
module AnalyzerState {
  import opened Wrappers
  import opened JsText

  /** `SESSION_TIMEOUT`: thirty minutes in milliseconds. */
  const SessionTimeout: int := 30 * 60 * 1000

  datatype Role = User | Assistant

  datatype Message = Message(role: Role, content: string, timestamp: int)

  // ---------------------------------------------------------------------
  // The transcript

  /** `setMessages(prev => [m, ...prev])`: the new message goes first. */
  function Prepend(m: Message, prev: seq<Message>): (r: seq<Message>)
    ensures |r| == |prev| + 1 && r[0] == m && r[1..] == prev
  {
    [m] + prev
  }

  /** Newest first: timestamps never increase along the transcript. */
  predicate NewestFirst(ms: seq<Message>) {
    forall i, j :: 0 <= i < j < |ms| ==> ms[i].timestamp >= ms[j].timestamp
  }

  /** Prepending a message no older than the newest keeps the transcript newest first. */
  lemma PrependKeepsOrder(m: Message, prev: seq<Message>)
    requires NewestFirst(prev) && (prev == [] || m.timestamp >= prev[0].timestamp)
    ensures NewestFirst(Prepend(m, prev))
  {
    var r := Prepend(m, prev);
    forall i, j | 0 <= i < j < |r| ensures r[i].timestamp >= r[j].timestamp {
      if i == 0 && j > 1 {
        assert r[j] == prev[j - 1] && prev[0].timestamp >= prev[j - 1].timestamp;
      } else if i > 0 {
        assert r[i] == prev[i - 1] && r[j] == prev[j - 1];
      }
    }
  }

  /** `lastMessage?.timestamp || 0`: the timestamp of element 0, or 0 when there is none. */
  function LastTimestamp(stored: seq<Message>): (ts: int)
    ensures stored == [] ==> ts == 0
    ensures stored != [] ==> ts == stored[0].timestamp
  {
    if stored == [] then 0 else stored[0].timestamp
  }

  /** The stored transcript has expired: more than the timeout has passed since its newest message. */
  predicate IsExpired(stored: seq<Message>, now: int) {
    now - LastTimestamp(stored) > SessionTimeout
  }

  /** The transcript shown and the transcript left in storage. */
  datatype Session = Session(messages: seq<Message>, stored: Option<seq<Message>>)

  /** The mount effect (lines 189-203): an expired transcript is removed, a live one is restored. */
  function RestoreTranscript(stored: Option<seq<Message>>, now: int): (r: Session)
    ensures stored.None? ==> r == Session([], None)
    ensures stored.Some? && IsExpired(stored.value, now) ==> r == Session([], None)
    ensures stored.Some? && !IsExpired(stored.value, now) ==> r == Session(stored.value, stored)
  {
    match stored
    case None => Session([], None)
    case Some(ms) => if IsExpired(ms, now) then Session([], None) else Session(ms, stored)
  }

  /** The save effect (lines 215-219): a non-empty transcript is written, an empty one leaves storage alone. */
  function Persist(messages: seq<Message>, stored: Option<seq<Message>>): (r: Option<seq<Message>>)
    ensures messages != [] ==> r == Some(messages)
    ensures messages == [] ==> r == stored
  {
    if |messages| > 0 then Some(messages) else stored
  }

  /**
   * Expiry is decided by the newest message alone: a transcript whose
   * newest message is at most thirty minutes old comes back unchanged, one
   * that is older is dropped.
   */
  lemma RestoreAfterPersist(messages: seq<Message>, stored: Option<seq<Message>>, now: int)
    requires messages != []
    ensures now - messages[0].timestamp <= SessionTimeout ==>
      RestoreTranscript(Persist(messages, stored), now) == Session(messages, Some(messages))
    ensures now - messages[0].timestamp > SessionTimeout ==>
      RestoreTranscript(Persist(messages, stored), now) == Session([], None)
  {
  }

  /** Thirty minutes to the millisecond is still live; one millisecond more is expired. */
  lemma ExpiryBoundary(m: Message, rest: seq<Message>)
    ensures !IsExpired([m] + rest, m.timestamp + 1800000)
    ensures IsExpired([m] + rest, m.timestamp + 1800001)
  {
  }

  /** A transcript without messages counts as sent at time 0. */
  lemma EmptyTranscriptTime(now: int)
    ensures IsExpired([], now) <==> now > 1800000
  {
  }

  // ---------------------------------------------------------------------
  // The tutorial

  /** `sessionStorage.getItem(FIRST_TIME_USER_KEY)`: the flag, when set. */
  datatype Visit = Visit(showTutorial: bool, flag: Option<string>)

  /** Lines 206-210: the tutorial opens unless the flag reads "false", and the flag is then set to "false". */
  function FirstVisit(showTutorial: bool, flag: Option<string>): (r: Visit)
    ensures flag != Some("false") ==> r == Visit(true, Some("false"))
    ensures flag == Some("false") ==> r == Visit(showTutorial, flag)
  {
    if flag != Some("false") then Visit(true, Some("false")) else Visit(showTutorial, flag)
  }

  /** The tutorial is offered once per session: the second mount changes nothing. */
  lemma TutorialOnce(showTutorial: bool, flag: Option<string>)
    ensures var v := FirstVisit(showTutorial, flag);
      FirstVisit(v.showTutorial, v.flag) == v
  {
  }

  datatype Tutorial = Tutorial(shown: bool, step: int)

  /** `nextTutorialStep` (lines 356-363): advance below step 3, otherwise close the tutorial and rewind. */
  function NextTutorialStep(t: Tutorial): (r: Tutorial)
    ensures t.step < 3 ==> r == Tutorial(t.shown, t.step + 1)
    ensures t.step >= 3 ==> r == Tutorial(false, 0)
  {
    if t.step < 3 then Tutorial(t.shown, t.step + 1) else Tutorial(false, 0)
  }

  /** The step stays among the four screens 0..3. */
  lemma TutorialStepInRange(t: Tutorial)
    requires 0 <= t.step <= 3
    ensures 0 <= NextTutorialStep(t).step <= 3
  {
  }

  /** `n` presses of "Next": however many there are, the step stays among the screens 0..3. */
  function Steps(t: Tutorial, n: nat): (r: Tutorial)
    ensures 0 <= t.step <= 3 ==> 0 <= r.step <= 3
    decreases n
  {
    if n == 0 then t else Steps(NextTutorialStep(t), n - 1)
  }

  /** Four presses of "Next" from screen `s` close the tutorial after the last screen, at step 0. */
  lemma {:induction false} TutorialRunsOut(shown: bool, s: int)
    requires 0 <= s <= 3
    ensures Steps(Tutorial(shown, s), 4 - s) == Tutorial(false, 0)
    ensures forall n :: 0 <= n < 4 - s ==> Steps(Tutorial(shown, s), n) == Tutorial(shown, s + n)
    decreases 3 - s
  {
    if s < 3 {
      TutorialRunsOut(shown, s + 1);
      assert forall n :: 0 < n < 4 - s ==> Steps(Tutorial(shown, s), n) == Steps(Tutorial(shown, s + 1), n - 1);
    }
  }

  // ---------------------------------------------------------------------
  // Collapsing sections

  /** A section is drawn open unless its entry is `false` (line 479): a missing entry means open. */
  predicate IsExpanded(expanded: map<string, bool>, id: string) {
    !(id in expanded && expanded[id] == false)
  }

  /** `toggleSection` (lines 365-370): the entry becomes the negation of its old value, a missing entry counting as false. */
  function ToggleSection(expanded: map<string, bool>, id: string): (r: map<string, bool>)
    ensures id in r && r[id] == !(id in expanded && expanded[id])
    ensures forall k :: k != id ==> (k in r <==> k in expanded)
    ensures forall k :: k != id && k in expanded ==> r[k] == expanded[k]
  {
    expanded[id := !(id in expanded && expanded[id])]
  }

  /** Toggling a present entry twice restores the map. */
  lemma ToggleTwice(expanded: map<string, bool>, id: string)
    requires id in expanded
    ensures ToggleSection(ToggleSection(expanded, id), id) == expanded
  {
  }

  /** Lines 324-330: every section of a new reply gets an explicit `true` entry. */
  function ExpandAll(expanded: map<string, bool>, ids: set<string>): (r: map<string, bool>)
    ensures forall k :: k in r <==> k in expanded || k in ids
    ensures forall k :: k in ids ==> r[k]
    ensures forall k :: k in expanded && k !in ids ==> r[k] == expanded[k]
  {
    map k | k in expanded.Keys + ids :: if k in ids then true else expanded[k]
  }

  /** On a present entry the toggle flips what is drawn. */
  lemma ToggleFlipsPresent(expanded: map<string, bool>, id: string)
    requires id in expanded
    ensures IsExpanded(ToggleSection(expanded, id), id) == !IsExpanded(expanded, id)
  {
  }

  /** The sections of a reply received in this session collapse on the first click. */
  lemma ToggleAfterExpandAll(expanded: map<string, bool>, ids: set<string>, id: string)
    requires id in ids
    ensures IsExpanded(ExpandAll(expanded, ids), id)
    ensures !IsExpanded(ToggleSection(ExpandAll(expanded, ids), id), id)
  {
  }

  /**
   * As written, a section without an entry (one of a transcript restored
   * from storage) is drawn open and stays open after the first click.
   */
  lemma FirstClickIgnored(expanded: map<string, bool>, id: string)
    requires id !in expanded
    ensures IsExpanded(expanded, id)
    ensures IsExpanded(ToggleSection(expanded, id), id)
  {
  }

  /** The toggle as evidently intended: the entry becomes the negation of what is drawn. */
  function ToggleDisplayed(expanded: map<string, bool>, id: string): (r: map<string, bool>)
    ensures IsExpanded(r, id) == !IsExpanded(expanded, id)
    ensures forall k :: k != id ==> (k in r <==> k in expanded)
    ensures forall k :: k != id && k in expanded ==> r[k] == expanded[k]
  {
    expanded[id := !IsExpanded(expanded, id)]
  }

  /** The intended toggle agrees with the written one wherever an entry is present. */
  lemma ToggleAgreesWhenPresent(expanded: map<string, bool>, id: string)
    requires id in expanded
    ensures ToggleDisplayed(expanded, id) == ToggleSection(expanded, id)
  {
  }

  // ---------------------------------------------------------------------
  // Submitting

  /** Lines 229-236: an argument is sent only when it holds something other than white space. */
  predicate Submittable(argument: string) {
    Trim(argument) != ""
  }

  lemma SubmittableIffNotBlank(argument: string)
    ensures Submittable(argument) <==> exists k :: 0 <= k < |argument| && !IsSpace(argument[k])
  {
  }
}
