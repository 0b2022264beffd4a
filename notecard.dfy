/**
  The note card component: a note it receives and never changes, three
  pieces of component state (whether the card is in edit mode and the two
  drafts), the handlers that change them, and the callbacks the card makes
  to its parent (`onUpdate`, `onDelete`).

  `Step` says what each user action does to the state and which callbacks
  it makes; the class `NoteCard` performs the same actions in place and
  keeps a log of the callbacks it has made.
 */
module NoteCardView {
  import opened JsString
  import opened Markdown

  /** Who wrote the note: `'manual'` or `'auto'`. */
  datatype Source = Manual | Auto

  /** The note the card shows; the time stamp is kept as a number. */
  datatype Note = Note(id: string, topic: string, content: string, source: Source, timestamp: int)

  /** The partial note sent with `onUpdate`: exactly its content and its
      topic. */
  datatype Update = Update(content: string, topic: string)

  /** A callback into the parent. */
  datatype Call = OnUpdate(noteId: string, updates: Update) | OnDelete(noteId: string)

  /** The button the user presses in the delete confirmation dialog. */
  datatype AlertChoice = CancelPressed | DeletePressed

  /** The component state: the three state hooks. */
  datatype CardState = CardState(isEditing: bool, editedContent: string, editedTopic: string)

  /** What the user can do: press the edit button, type into the topic or
      the content field, press save, cancel or delete (and answer the
      dialog). */
  datatype Event =
    | PressEdit
    | ChangeTopic(topic: string)
    | ChangeContent(content: string)
    | PressSave
    | PressCancel
    | PressDelete(choice: AlertChoice)

  /** The new state after an action and the callbacks made during it, in
      order. */
  datatype Outcome = Outcome(state: CardState, calls: seq<Call>)

  /** What the card shows: the topic and the formatted content, or the two
      input fields with the drafts. In both modes the header shows whether
      the note was written automatically. */
  datatype Display =
    | Viewing(topic: string, body: string, auto: bool)
    | Editing(topicDraft: string, contentDraft: string, auto: bool)

  /** The state when the card is first shown: not editing, drafts taken
      from the note. */
  function Mount(note: Note): CardState
  {
    CardState(false, note.content, note.topic)
  }

  /** An update fit to be sent: the content has a visible character, and
      neither field starts or ends with white space. */
  predicate CleanUpdate(u: Update)
  {
    u.content != [] && IsTrimmed(u.content) && IsTrimmed(u.topic)
  }

  /** A callback the card may make for `note`: it names the note, and an
      update is clean. */
  predicate CallFor(note: Note, c: Call)
  {
    c.noteId == note.id && (c.OnUpdate? ==> CleanUpdate(c.updates))
  }

  /** Every callback of a list is one the card may make for `note`. */
  predicate AllFor(note: Note, calls: seq<Call>)
  {
    forall i :: 0 <= i < |calls| ==> CallFor(note, calls[i])
  }

  lemma AllForAppend(note: Note, a: seq<Call>, b: seq<Call>)
    requires AllFor(note, a) && AllFor(note, b)
    ensures AllFor(note, a + b)
  {
    forall i | 0 <= i < |a + b| ensures CallFor(note, (a + b)[i]) {
      if i < |a| {
        assert (a + b)[i] == a[i];
      } else {
        assert (a + b)[i] == b[i - |a|];
      }
    }
  }

  /** One user action. Saving makes the update call only when the trimmed
      content draft is not empty; it then leaves edit mode but keeps the
      drafts as they were typed. Cancelling puts the note back into the
      drafts. Pressing edit only enters edit mode. Delete calls back only
      when the user confirms, and changes no state. */
  function Step(note: Note, st: CardState, e: Event): (r: Outcome)
    ensures |r.calls| <= 1
    ensures AllFor(note, r.calls)
  {
    match e
    case PressEdit => Outcome(st.(isEditing := true), [])
    case ChangeTopic(t) => Outcome(st.(editedTopic := t), [])
    case ChangeContent(c) => Outcome(st.(editedContent := c), [])
    case PressSave => Save(note, st)
    case PressCancel => Outcome(CardState(false, note.content, note.topic), [])
    case PressDelete(choice) =>
      Outcome(st, if choice == DeletePressed then [OnDelete(note.id)] else [])
  }

  /** A clean update is its own trimmed form: trimming it again, as the
      parent might, changes nothing. */
  lemma CleanUpdateIsTrimmed(u: Update)
    requires CleanUpdate(u)
    ensures Trim(u.content) == u.content && Trim(u.topic) == u.topic
  {
    TrimFixesTrimmed(u.content);
    TrimFixesTrimmed(u.topic);
  }

  /** `handleSave`: the update call is made only when the trimmed content
      draft is not empty, and then edit mode ends; the drafts are kept as
      typed. */
  function Save(note: Note, st: CardState): (r: Outcome)
    ensures |r.calls| <= 1 && AllFor(note, r.calls)
  {
    var content := Trim(st.editedContent);
    if content != [] then
      Outcome(st.(isEditing := false), [OnUpdate(note.id, Update(content, Trim(st.editedTopic)))])
    else
      Outcome(st, [])
  }

  /** A sequence of actions, the first one first: the final state and all
      callbacks made. */
  function Run(note: Note, st: CardState, events: seq<Event>): (r: Outcome)
    ensures AllFor(note, r.calls)
    ensures |r.calls| <= |events|
    decreases |events|
  {
    if events == [] then Outcome(st, [])
    else
      var first := Step(note, st, events[0]);
      var rest := Run(note, first.state, events[1..]);
      AllForAppend(note, first.calls, rest.calls);
      Outcome(rest.state, first.calls + rest.calls)
  }

  /** What the card renders in a state. */
  function View(note: Note, st: CardState): Display
  {
    if st.isEditing then Editing(st.editedTopic, st.editedContent, note.source == Auto)
    else Viewing(note.topic, ParseMarkdown(note.content), note.source == Auto)
  }

  /** Save calls back exactly when the content draft has a character that is
      neither white space nor a line terminator, and otherwise changes
      nothing at all. */
  lemma SaveCallsIffVisible(note: Note, st: CardState)
    ensures Step(note, st, PressSave).calls != [] <==>
      exists i :: 0 <= i < |st.editedContent| && !IsTrimmable(st.editedContent[i])
    ensures Step(note, st, PressSave).calls == [] ==> Step(note, st, PressSave).state == st
  {
  }

  /** A draft typed with blanks around it is sent without them. */
  lemma SaveTrimsExample(note: Note, st: CardState)
    requires st.editedContent == "  world  "
    ensures Save(note, st).calls == [OnUpdate(note.id, Update("world", Trim(st.editedTopic)))]
  {
    TrimWorld();
  }

  lemma TrimWorld()
    ensures Trim("  world  ") == "world"
  {
    var pre, x := "  ", "world";
    assert IsTrimmable(pre[0]) && IsTrimmable(pre[1]);
    assert x[0] == 'w' && x[4] == 'd';
    TrimSurrounded(pre, x, pre);
    PaddedWorld();
  }

  lemma PaddedWorld()
    ensures "  " + "world" + "  " == "  world  "
  {
  }

  /** A successful save leaves edit mode and keeps both drafts untrimmed. */
  lemma SaveKeepsDrafts(note: Note, st: CardState)
    requires Step(note, st, PressSave).calls != []
    ensures Step(note, st, PressSave).state == CardState(false, st.editedContent, st.editedTopic)
  {
  }

  /** Cancelling, from any state, returns the card to the state it had when
      it was first shown, with no callback. */
  lemma CancelRemounts(note: Note, st: CardState)
    ensures Step(note, st, PressCancel) == Outcome(Mount(note), [])
  {
  }

  /** Delete changes no state, and calls back once, with the note's id,
      exactly when the user confirms. */
  lemma DeleteCallsIffConfirmed(note: Note, st: CardState, choice: AlertChoice)
    ensures Step(note, st, PressDelete(choice)).state == st
    ensures Step(note, st, PressDelete(choice)).calls == [OnDelete(note.id)] <==> choice == DeletePressed
    ensures Step(note, st, PressDelete(choice)).calls == [] <==> choice == CancelPressed
  {
  }

  /** Entering edit mode does not refresh the drafts: after a save that was
      accepted, editing again shows the draft as it was typed, not the
      note's content. */
  lemma EditAgainShowsOldDraft(note: Note, c: string)
    requires Trim(c) != []
    ensures Run(note, Mount(note), [PressEdit, ChangeContent(c), PressSave, PressEdit]).state ==
      CardState(true, c, note.topic)
    ensures View(note, Run(note, Mount(note), [PressEdit, ChangeContent(c), PressSave, PressEdit]).state) ==
      Editing(note.topic, c, note.source == Auto)
  {
    var evs := [PressEdit, ChangeContent(c), PressSave, PressEdit];
    var s1 := Step(note, Mount(note), PressEdit).state;
    var s2 := Step(note, s1, ChangeContent(c)).state;
    var s3 := Step(note, s2, PressSave).state;
    assert s3 == CardState(false, c, note.topic);
    RunCons(note, Mount(note), evs);
    assert evs[1..] == [ChangeContent(c), PressSave, PressEdit];
    RunCons(note, s1, evs[1..]);
    assert evs[1..][1..] == [PressSave, PressEdit];
    RunCons(note, s2, evs[1..][1..]);
    assert evs[1..][1..][1..] == [PressEdit];
    RunSingle(note, s3, PressEdit);
  }

  /** A run of one action is that action. */
  lemma RunSingle(note: Note, st: CardState, e: Event)
    ensures Run(note, st, [e]) == Step(note, st, e)
  {
    assert [e][1..] == [];
    assert Step(note, st, e).calls + [] == Step(note, st, e).calls;
  }

  /** Whatever the user did before, cancelling and then saving without
      typing sends the note's own trimmed content and topic, provided the
      note's content is not blank. */
  lemma ResaveAfterCancel(note: Note, st: CardState)
    ensures Run(note, st, [PressCancel, PressEdit, PressSave]).calls ==
      (if Trim(note.content) != [] then [OnUpdate(note.id, Update(Trim(note.content), Trim(note.topic)))] else [])
  {
    var evs := [PressCancel, PressEdit, PressSave];
    var s1 := Step(note, st, PressCancel).state;
    var s2 := Step(note, s1, PressEdit).state;
    assert s2 == CardState(true, note.content, note.topic);
    RunCons(note, st, evs);
    assert evs[1..] == [PressEdit, PressSave];
    RunCons(note, s1, evs[1..]);
    assert evs[1..][1..] == [PressSave];
    RunSingle(note, s2, PressSave);
  }

  /** Splitting a list of actions in two splits the run. */
  lemma {:induction false} RunAppend(note: Note, st: CardState, a: seq<Event>, b: seq<Event>)
    ensures Run(note, st, a + b).state == Run(note, Run(note, st, a).state, b).state
    ensures Run(note, st, a + b).calls == Run(note, st, a).calls + Run(note, Run(note, st, a).state, b).calls
    decreases |a|
  {
    if a == [] {
      assert a + b == b;
    } else {
      var first := Step(note, st, a[0]);
      RunAppend(note, first.state, a[1..], b);
      RunCons(note, st, a);
      assert (a + b)[0] == a[0];
      assert (a + b)[1..] == a[1..] + b;
      RunCons(note, st, a + b);
      var mid := Run(note, first.state, a[1..]);
      CallsAssociate(first.calls, mid.calls, Run(note, mid.state, b).calls);
    }
  }

  /** The first step of a run. */
  lemma RunCons(note: Note, st: CardState, events: seq<Event>)
    requires events != []
    ensures Run(note, st, events).state == Run(note, Step(note, st, events[0]).state, events[1..]).state
    ensures Run(note, st, events).calls ==
      Step(note, st, events[0]).calls + Run(note, Step(note, st, events[0]).state, events[1..]).calls
  {
  }

  lemma CallsAssociate(a: seq<Call>, b: seq<Call>, c: seq<Call>)
    ensures a + (b + c) == a + b + c
  {
  }

  /** The card shows the note again after a cancel, with the content
      formatted. */
  lemma CancelShowsNote(note: Note, st: CardState)
    ensures View(note, Step(note, st, PressCancel).state) ==
      Viewing(note.topic, ParseMarkdown(note.content), note.source == Auto)
  {
  }

  /** Outside edit mode a note without markup characters is shown exactly
      as it is written. */
  lemma PlainNoteShownVerbatim(note: Note, st: CardState)
    requires !st.isEditing
    requires Plain(note.content)
    ensures View(note, st) == Viewing(note.topic, note.content, note.source == Auto)
  {
    PlainTextUnchanged(note.content);
  }

  /** The component. The note is the property it was created with; the
      three state hooks are fields; `calls` records every callback made so
      far. */
  class NoteCard {
    const note: Note
    var isEditing: bool
    var editedContent: string
    var editedTopic: string
    ghost var calls: seq<Call>

    function State(): CardState
      reads this
    {
      CardState(isEditing, editedContent, editedTopic)
    }

    /** Every callback made so far names this card's note, and every update
        was clean. */
    ghost predicate Valid()
      reads this
    {
      AllFor(note, calls)
    }

    constructor (note: Note)
      ensures this.note == note
      ensures State() == Mount(note) && calls == []
      ensures Valid()
    {
      this.note := note;
      isEditing := false;
      editedContent := note.content;
      editedTopic := note.topic;
      calls := [];
    }

    /** The edit button: enter edit mode, drafts untouched. */
    method BeginEdit()
      requires Valid()
      modifies this
      ensures State() == Step(note, old(State()), PressEdit).state
      ensures editedContent == old(editedContent) && editedTopic == old(editedTopic)
      ensures isEditing && calls == old(calls) && Valid()
    {
      isEditing := true;
    }

    /** `onChangeText` of the topic field. */
    method SetEditedTopic(t: string)
      requires Valid()
      modifies this
      ensures State() == Step(note, old(State()), ChangeTopic(t)).state
      ensures calls == old(calls) && Valid()
    {
      editedTopic := t;
    }

    /** `onChangeText` of the content field. */
    method SetEditedContent(c: string)
      requires Valid()
      modifies this
      ensures State() == Step(note, old(State()), ChangeContent(c)).state
      ensures calls == old(calls) && Valid()
    {
      editedContent := c;
    }

    /** `handleSave`: `emitted` is the list of callbacks it makes. */
    method HandleSave() returns (emitted: seq<Call>)
      requires Valid()
      modifies this
      ensures Outcome(State(), emitted) == Step(note, old(State()), PressSave)
      ensures emitted != [] <==> Trim(old(editedContent)) != []
      ensures emitted != [] ==>
        emitted == [OnUpdate(note.id, Update(Trim(old(editedContent)), Trim(old(editedTopic))))] && !isEditing
      ensures editedContent == old(editedContent) && editedTopic == old(editedTopic)
      ensures emitted == [] ==> isEditing == old(isEditing)
      ensures calls == old(calls) + emitted && Valid()
    {
      var content := Trim(editedContent);
      if content != [] {
        emitted := [OnUpdate(note.id, Update(content, Trim(editedTopic)))];
        isEditing := false;
      } else {
        emitted := [];
      }
      calls := calls + emitted;
    }

    /** `handleCancel`: drafts back from the note, leave edit mode. */
    method HandleCancel()
      requires Valid()
      modifies this
      ensures State() == Step(note, old(State()), PressCancel).state
      ensures State() == Mount(note)
      ensures calls == old(calls) && Valid()
    {
      editedContent := note.content;
      editedTopic := note.topic;
      isEditing := false;
    }

    /** `handleDelete` with the user's answer to the dialog. */
    method HandleDelete(choice: AlertChoice) returns (emitted: seq<Call>)
      requires Valid()
      modifies this
      ensures Outcome(State(), emitted) == Step(note, old(State()), PressDelete(choice))
      ensures State() == old(State())
      ensures emitted == (if choice == DeletePressed then [OnDelete(note.id)] else [])
      ensures calls == old(calls) + emitted && Valid()
    {
      if choice == DeletePressed {
        emitted := [OnDelete(note.id)];
      } else {
        emitted := [];
      }
      calls := calls + emitted;
    }
  }
}
