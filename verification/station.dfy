/** The display ("TV") side (views/TVView.tsx): a single session cell that the
    data handler overwrites on `SYNC_STATE` and clears on `END_SESSION`. The
    display keeps no clock of its own; it shows what the last payload said. */
module Station {
  import opened Types
  import opened Protocol
  import Text

  /** The data handler's effect on the session cell. */
  function Apply(session: Option<Payload>, msg: Message): (r: Option<Payload>)
    ensures msg.SyncState? ==> r == Some(msg.payload)
    ensures msg.EndSession? ==> r == None
    ensures msg.Other? ==> r == session
  {
    match msg
    case SyncState(p) => Some(p)
    case EndSession => None
    case Other(_) => session
  }

  /** The session cell after handling `msgs` in order, starting from `session`. */
  function ApplyAll(session: Option<Payload>, msgs: seq<Message>): Option<Payload>
  {
    if msgs == [] then session
    else Apply(ApplyAll(session, msgs[..|msgs| - 1]), msgs[|msgs| - 1])
  }

  /** The value written by the last `SYNC_STATE` or `END_SESSION` in `msgs`
      (`Some(None)` for an end), or `None` when there is no such message. */
  function LastWrite(msgs: seq<Message>): Option<Option<Payload>>
  {
    if msgs == [] then None
    else match msgs[|msgs| - 1]
      case SyncState(p) => Some(Some(p))
      case EndSession => Some(None)
      case Other(_) => LastWrite(msgs[..|msgs| - 1])
  }

  /** Last write wins: after any sequence of messages the cell holds the payload
      of the last `SYNC_STATE`, or nothing when an `END_SESSION` came after it,
      or its initial value when neither kind arrived. */
  lemma {:induction false} LastWriteWins(session: Option<Payload>, msgs: seq<Message>)
    ensures ApplyAll(session, msgs) == match LastWrite(msgs)
                                       case None => session
                                       case Some(s) => s
  {
    if msgs != [] {
      LastWriteWins(session, msgs[..|msgs| - 1]);
    }
  }

  lemma {:induction false} ApplyAllAppend(session: Option<Payload>, a: seq<Message>, b: seq<Message>)
    ensures ApplyAll(session, a + b) == ApplyAll(ApplyAll(session, a), b)
    decreases |b|
  {
    if b == [] {
      assert a + b == a;
    } else {
      assert (a + b)[..|a + b| - 1] == a + b[..|b| - 1];
      ApplyAllAppend(session, a, b[..|b| - 1]);
    }
  }

  /** A message delivered twice in a row has the same effect as delivered once. */
  lemma DuplicateDelivery(session: Option<Payload>, msgs: seq<Message>, m: Message)
    ensures ApplyAll(session, msgs + [m, m]) == ApplyAll(session, msgs + [m])
  {
    ApplyAllAppend(session, msgs, [m, m]);
    ApplyAllAppend(session, msgs, [m]);
    assert [m, m][..1] == [m];
  }

  /** What the display renders. */
  datatype Screen =
    | Waiting(pairingId: string)
    | Showing(exercise: Exercise, timeLeft: int, isPaused: bool)

  /** No session: the pairing screen with the peer id (or "..." before the
      peer has opened). A session: its exercise, `timeLeft` and pause flag. */
  function Render(session: Option<Payload>, peerId: string): (s: Screen)
    ensures s.Waiting? <==> session.None?
    ensures session.None? ==> s.pairingId == if peerId == "" then "..." else peerId
    ensures session.Some? ==> s == Showing(session.value.exercise, session.value.timeLeft, session.value.isPaused)
  {
    match session
    case None => Waiting(if peerId == "" then "..." else peerId)
    case Some(p) => Showing(p.exercise, p.timeLeft, p.isPaused)
  }

  /** The time and pause flag on screen are exactly the last payload's. */
  lemma ShowsLastPayload(session: Option<Payload>, msgs: seq<Message>, peerId: string, p: Payload)
    requires LastWrite(msgs) == Some(Some(p))
    ensures Render(ApplyAll(session, msgs), peerId) == Showing(p.exercise, p.timeLeft, p.isPaused)
  {
    LastWriteWins(session, msgs);
  }

  /** After an `END_SESSION` the pairing screen is back. */
  lemma EndShowsWaiting(session: Option<Payload>, msgs: seq<Message>, peerId: string)
    ensures Render(ApplyAll(session, msgs + [EndSession]), peerId).Waiting?
  {
    assert (msgs + [EndSession])[..|msgs|] == msgs;
  }

  /** `Math.random().toString(36).substring(2, 8).toUpperCase()`, given the
      base-36 rendering of the random number (for example "0.k3x9q2m..."). */
  function PairingId(randomBase36: string): (id: string)
    ensures |id| <= 6
    ensures |randomBase36| >= 8 ==> |id| == 6
    ensures forall i :: 0 <= i < |id| ==> !Text.IsLowerLetter(id[i])
    ensures |randomBase36| >= 8 ==> id == Text.ToUpper(randomBase36[2..8])
  {
    Text.ToUpper(Text.Substring(randomBase36, 2, 8))
  }

  /** The display page: its session cell and the id its peer registered under. */
  class StationView {
    var session: Option<Payload>
    var peerId: string

    constructor ()
      ensures session == None && peerId == ""
    {
      session := None;
      peerId := "";
    }

    /** `peer.on('open', id => setPeerId(id))`. */
    method PeerOpened(id: string)
      modifies this
      ensures peerId == id && session == old(session)
    {
      peerId := id;
    }

    /** `conn.on('data', ...)`: the only way the session cell changes. */
    method Receive(msg: Message)
      modifies this
      ensures session == Apply(old(session), msg)
      ensures peerId == old(peerId)
    {
      match msg {
        case SyncState(p) => session := Some(p);
        case EndSession => session := None;
        case Other(_) =>
      }
    }

    function View(): Screen
      reads this
    {
      Render(session, peerId)
    }
  }
}
