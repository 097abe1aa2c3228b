/** A queue of tagged events (unions.c).

    The program's `event` is a C union whose variants all start with the
    same `type` member, so writing a variant's tag also writes the union's
    tag. Here a union that holds a variant is the datatype `Event`, and the
    value its `type` member reads is `Tag`. The global, NULL-terminated
    queue of event pointers and its cursor `queue_ptr` are the fields of
    `EventQueue`; `main`'s switch on the tag is `Dispatch`. */
module Unions {
  import opened Optional

  /** KEYBOARD_EVENT, MOUSE_EVENT, WINDOW_EVENT, NUM_EVENTS and MAX_EVENTS. */
  const KeyboardEvent: nat := 0
  const MouseEvent: nat := 1
  const WindowEvent: nat := 2
  const NumEvents: nat := 3
  const MaxEvents: nat := 256

  /** enum KEYS. */
  datatype Key = Up | Down | Left | Right

  /** The three variants of the union. */
  datatype Event =
    | Keyboard(key: Key)
    | Mouse(x: int, y: int)
    | Window(resize: bool, quit: bool)

  /** The union's `type` member: each variant's own `type` is the same
      storage, so it reads the tag of the variant written. */
  function Tag(e: Event): (t: nat)
    ensures t < NumEvents
  {
    match e
    case Keyboard(_) => KeyboardEvent
    case Mouse(_, _) => MouseEvent
    case Window(_, _) => WindowEvent
  }

  /** The branches of `main`'s switch. */
  datatype Kind = KeyboardKind | MouseKind | WindowKind | UnknownKind

  function KindOf(e: Event): Kind {
    match e
    case Keyboard(_) => KeyboardKind
    case Mouse(_, _) => MouseKind
    case Window(_, _) => WindowKind
  }

  /** The case a tag selects: any tag outside 0..2 takes the default branch. */
  function Classify(tag: nat): (k: Kind)
    ensures k == UnknownKind <==> tag >= NumEvents
  {
    if tag == KeyboardEvent then KeyboardKind
    else if tag == MouseEvent then MouseKind
    else if tag == WindowEvent then WindowKind
    else UnknownKind
  }

  /** A tag selects a variant's branch exactly when it is that variant's tag. */
  lemma ClassifyTag(e: Event, tag: nat)
    ensures Classify(tag) == KindOf(e) <==> tag == Tag(e)
  {
  }

  /** What one iteration of `main`'s loop reports; the window message lists
      quit before resize, as the program's message does. */
  datatype Message =
    | KeyMessage(key: Key)
    | MouseMessage(x: int, y: int)
    | WindowMessage(quit: bool, resize: bool)
    | UnknownMessage(tag: nat)

  /** The switch of `main` on a union whose `type` member reads `tag` and
      whose last written variant is `e`: the tag is either the variant's
      own or one outside the known range. */
  function Dispatch(tag: nat, e: Event): (m: Message)
    requires tag == Tag(e) || tag >= NumEvents
    ensures m.UnknownMessage? <==> tag >= NumEvents
    ensures m.UnknownMessage? ==> m.tag == tag
  {
    match Classify(tag)
    case KeyboardKind => KeyMessage(e.key)
    case MouseKind => MouseMessage(e.x, e.y)
    case WindowKind => WindowMessage(e.quit, e.resize)
    case UnknownKind => UnknownMessage(tag)
  }

  /** The event a report describes, if it describes one. */
  function Described(m: Message): Option<Event> {
    match m
    case KeyMessage(k) => Some(Keyboard(k))
    case MouseMessage(x, y) => Some(Mouse(x, y))
    case WindowMessage(quit, resize) => Some(Window(resize, quit))
    case UnknownMessage(_) => None
  }

  /** A well-tagged event is reported in full: its report gives back the
      event, so the dispatch loses no field and mixes up no variant. */
  lemma DispatchReports(e: Event)
    ensures Described(Dispatch(Tag(e), e)) == Some(e)
  {
  }

  /** The reports of a sequence of well-tagged events, in order. */
  function Messages(es: seq<Event>): (ms: seq<Message>)
    ensures |ms| == |es|
    ensures forall i :: 0 <= i < |es| ==> Described(ms[i]) == Some(es[i])
  {
    if es == [] then []
    else
      DispatchReports(es[0]);
      [Dispatch(Tag(es[0]), es[0])] + Messages(es[1..])
  }

  /** The events held by slots that are all occupied. */
  function Unwrap(s: seq<Option<Event>>): (r: seq<Event>)
    requires forall i :: 0 <= i < |s| ==> s[i].Some?
    ensures |r| == |s|
    ensures forall i :: 0 <= i < |s| ==> s[i] == Some(r[i])
  {
    if s == [] then [] else [s[0].value] + Unwrap(s[1..])
  }

  /** The global `queue` of event pointers (None is NULL) and its cursor
      `queue_ptr`, as a slot index. */
  class EventQueue {
    var slots: array<Option<Event>>
    var cursor: nat
    /** The terminator the cursor stops at. */
    ghost var end: nat

    /** The cursor never passes the terminator, the slots in between are
        occupied, and the queue and its terminator fit in MAX_EVENTS slots. */
    ghost predicate Valid()
      reads this, slots
    {
      slots.Length == MaxEvents && cursor <= end < MaxEvents && slots[end] == None &&
      forall i :: cursor <= i < end ==> slots[i].Some?
    }

    /** The events get_event will still deliver, in order. */
    ghost function Pending(): seq<Event>
      reads this, slots
      requires Valid()
    {
      Unwrap(slots[cursor..end])
    }

    /** The static queue starts all NULL with the cursor at its first slot. */
    constructor ()
      ensures Valid() && fresh(slots)
      ensures cursor == 0 && Pending() == []
      ensures forall i :: 0 <= i < MaxEvents ==> slots[i] == None
    {
      slots := new Option<Event>[MaxEvents](_ => None);
      cursor := 0;
      end := 0;
    }

    /** fill_queue: from the cursor on, a window event (resize, no quit), a
        mouse event at (42, 42), a keyboard event for KEY_UP and a NULL
        terminator; the cursor itself does not move. */
    method FillQueue()
      requires Valid() && cursor + 4 <= MaxEvents
      modifies this, slots
      ensures Valid() && cursor == old(cursor)
      ensures Pending() == [Window(true, false), Mouse(42, 42), Keyboard(Up)]
      ensures slots[..cursor] == old(slots[..cursor])
      ensures slots[cursor + 4..] == old(slots[cursor + 4..])
    {
      var q := cursor;
      slots[q] := Some(Window(true, false));
      q := q + 1;
      slots[q] := Some(Mouse(42, 42));
      q := q + 1;
      slots[q] := Some(Keyboard(Up));
      q := q + 1;
      slots[q] := None;
      end := q;
      assert slots[cursor..end] == [Some(Window(true, false)), Some(Mouse(42, 42)), Some(Keyboard(Up))];
    }

    /** get_event: at the terminator it reports false and moves nothing;
        otherwise it copies the current event out and advances the cursor by
        one slot. */
    method GetEvent(prev: Event) returns (ok: bool, ev: Event)
      requires Valid()
      modifies this
      ensures Valid() && slots == old(slots) && end == old(end)
      ensures ok <==> old(Pending()) != []
      ensures !ok ==> ev == prev && cursor == old(cursor)
      ensures ok ==> ev == old(Pending())[0] && cursor == old(cursor) + 1
      ensures ok ==> Pending() == old(Pending())[1..]
    {
      if slots[cursor] == None {
        return false, prev;
      }
      ghost var s := slots[cursor..end];
      assert s == [slots[cursor]] + slots[cursor + 1..end];
      ev := slots[cursor].value;
      cursor := cursor + 1;
      ok := true;
    }
  }

  /** The loop of `main`: drain the queue, reporting each event by its tag. */
  method Run(q: EventQueue) returns (log: seq<Message>)
    requires q.Valid()
    modifies q
    ensures q.Valid() && q.slots == old(q.slots) && q.end == old(q.end)
    ensures q.Pending() == []
    ensures log == Messages(old(q.Pending()))
  {
    ghost var initial := q.Pending();
    log := [];
    // main's `ev` starts unset; no value of it is read before a successful get_event
    var ev := Keyboard(Up);
    while true
      invariant q.Valid() && q.slots == old(q.slots) && q.end == old(q.end)
      invariant log + Messages(q.Pending()) == Messages(initial)
      decreases q.end - q.cursor
    {
      ghost var before := q.Pending();
      var ok;
      ok, ev := q.GetEvent(ev);
      if !ok {
        assert before == [];
        return;
      }
      Report(log, ev, before, Messages(initial));
      log := log + [Dispatch(Tag(ev), ev)];
    }
  }

  /** Moving the first pending event's report to the end of the log. */
  lemma Report(log: seq<Message>, e: Event, rest: seq<Event>, all: seq<Message>)
    requires rest != [] && e == rest[0] && log + Messages(rest) == all
    ensures (log + [Dispatch(Tag(e), e)]) + Messages(rest[1..]) == all
  {
  }

  /** main: fill the queue, then report the window, the mouse and the
      keyboard event in that order; after them get_event only fails. */
  method Demo() returns (log: seq<Message>)
    ensures log == [WindowMessage(false, true), MouseMessage(42, 42), KeyMessage(Up)]
  {
    var q := new EventQueue();
    q.FillQueue();
    log := Run(q);
  }
}
