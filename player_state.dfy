/**
  The GUI's player-state reducer (gui/src/app/player_state.rs): a snapshot of one player,
  built from independent queries with defaults, and a reducer that folds the player's event
  stream into it. In this version the reducer is total: every event, `PlayerShutDown`
  included, yields a snapshot.
*/
module GuiPlayerState {
  import opened Wrappers
  import opened Mpris

  datatype PlayerState = PlayerState(
    metadata: Metadata,
    playbackStatus: PlaybackStatus,
    loopStatus: LoopStatus,
    shuffle: bool,
    volume: real)

  /** The answer to one query put to the player: its value, or a failure. */
  datatype Query<T> = Answered(value: T) | QueryFailed

  function UnwrapOr<T>(q: Query<T>, default: T): T {
    match q
    case Answered(v) => v
    case QueryFailed => default
  }

  /**
    `PlayerState::new`: each field comes from its own query; a failed query gives the
    field's default. The shuffle flag is never queried and always starts off.
  */
  function New(
    metadata: Query<Metadata>,
    status: Query<PlaybackStatus>,
    loopStatus: Query<LoopStatus>,
    volume: Query<real>): (s: PlayerState)
    ensures metadata.Answered? ==> s.metadata == metadata.value
    ensures metadata.QueryFailed? ==> s.metadata == DefaultMetadata
    ensures status.Answered? ==> s.playbackStatus == status.value
    ensures status.QueryFailed? ==> s.playbackStatus == PlaybackStatus.Stopped
    ensures loopStatus.Answered? ==> s.loopStatus == loopStatus.value
    ensures loopStatus.QueryFailed? ==> s.loopStatus == NoLoop
    ensures volume.Answered? ==> s.volume == volume.value
    ensures volume.QueryFailed? ==> s.volume == 1.0
    ensures !s.shuffle
  {
    PlayerState(
      UnwrapOr(metadata, DefaultMetadata),
      UnwrapOr(status, PlaybackStatus.Stopped),
      UnwrapOr(loopStatus, NoLoop),
      false,
      UnwrapOr(volume, 1.0))
  }

  /** The five fields of a snapshot. */
  datatype Field = MetadataField | StatusField | LoopField | ShuffleField | VolumeField

  /** `s` and `t` hold the same value in field `f`. */
  predicate SameOn(s: PlayerState, t: PlayerState, f: Field) {
    match f
    case MetadataField => s.metadata == t.metadata
    case StatusField => s.playbackStatus == t.playbackStatus
    case LoopField => s.loopStatus == t.loopStatus
    case ShuffleField => s.shuffle == t.shuffle
    case VolumeField => s.volume == t.volume
  }

  /**
    The event taxonomy: the one field an event targets, or `None` for the events the
    reducer ignores (seeks, the shutdown notice, track-list events, rate changes).
  */
  function Target(e: Event): Option<Field> {
    match e
    case TrackChanged(_) => Some(MetadataField)
    case Playing | Paused | Stopped => Some(StatusField)
    case LoopingChanged(_) => Some(LoopField)
    case ShuffleToggled(_) => Some(ShuffleField)
    case VolumeChanged(_) => Some(VolumeField)
    case _ => None
  }

  /**
    `PlayerState::handle_event`: the targeted field takes the value the event carries and
    every other field keeps its value; an untargeted event changes nothing.
  */
  function HandleEvent(s: PlayerState, e: Event): (r: PlayerState)
    ensures forall f :: Target(e) != Some(f) ==> SameOn(r, s, f)
    ensures Target(e) == None ==> r == s
    ensures e.TrackChanged? ==> r.metadata == e.metadata
    ensures e.Playing? ==> r.playbackStatus == PlaybackStatus.Playing
    ensures e.Paused? ==> r.playbackStatus == PlaybackStatus.Paused
    ensures e.Stopped? ==> r.playbackStatus == PlaybackStatus.Stopped
    ensures e.LoopingChanged? ==> r.loopStatus == e.loopStatus
    ensures e.ShuffleToggled? ==> r.shuffle == e.shuffle
    ensures e.VolumeChanged? ==> r.volume == e.volume
  {
    match e
    case TrackChanged(m) => s.(metadata := m)
    case Playing => s.(playbackStatus := PlaybackStatus.Playing)
    case Paused => s.(playbackStatus := PlaybackStatus.Paused)
    case Stopped => s.(playbackStatus := PlaybackStatus.Stopped)
    case LoopingChanged(l) => s.(loopStatus := l)
    case ShuffleToggled(b) => s.(shuffle := b)
    case VolumeChanged(v) => s.(volume := v)
    case Seeked(_) => s
    case PlayerShutDown => s
    case TrackAdded(_) | TrackRemoved(_) | TrackMetadataChanged(_, _) | TrackListReplaced => s
    case PlaybackRateChanged(_) => s
  }

  /** The value an event writes does not depend on the snapshot it is applied to. */
  lemma WriteIgnoresPrior(s: PlayerState, t: PlayerState, e: Event, f: Field)
    requires Target(e) == Some(f)
    ensures SameOn(HandleEvent(s, e), HandleEvent(t, e), f)
  {
  }

  /** The snapshot after the listener has applied every event of `es`, in order. */
  function Replay(s: PlayerState, es: seq<Event>): PlayerState
    decreases |es|
  {
    if es == [] then s else Replay(HandleEvent(s, es[0]), es[1..])
  }

  /** A field no event of `es` targets keeps its initial value. */
  lemma {:induction false} ReplayUntargetedKeepsInitial(s: PlayerState, es: seq<Event>, f: Field)
    requires forall j :: 0 <= j < |es| ==> Target(es[j]) != Some(f)
    ensures SameOn(Replay(s, es), s, f)
    decreases |es|
  {
    if es != [] {
      var s1 := HandleEvent(s, es[0]);
      assert Target(es[0]) != Some(f);
      ReplayUntargetedKeepsInitial(s1, es[1..], f);
    }
  }

  /**
    Last writer wins: when `es[k]` is the last event of `es` targeting field `f`, the field
    holds, after the whole sequence, the value `es[k]` writes.
  */
  lemma {:induction false} ReplayLastWriterWins(s: PlayerState, es: seq<Event>, f: Field, k: nat)
    requires k < |es| && Target(es[k]) == Some(f)
    requires forall j :: k < j < |es| ==> Target(es[j]) != Some(f)
    ensures SameOn(Replay(s, es), HandleEvent(s, es[k]), f)
    decreases |es|
  {
    var s1 := HandleEvent(s, es[0]);
    if k == 0 {
      ReplayUntargetedKeepsInitial(s1, es[1..], f);
    } else {
      ReplayLastWriterWins(s1, es[1..], f, k - 1);
      WriteIgnoresPrior(s1, s, es[k], f);
    }
  }

  /** Events are applied one after another: replaying `es + [e]` is one more step. */
  lemma {:induction false} ReplaySnoc(s: PlayerState, es: seq<Event>, e: Event)
    ensures Replay(s, es + [e]) == HandleEvent(Replay(s, es), e)
    decreases |es|
  {
    if es != [] {
      assert (es + [e])[1..] == es[1..] + [e];
      ReplaySnoc(HandleEvent(s, es[0]), es[1..], e);
    }
  }

  /**
    A shutdown notice in the middle of a stream is not terminal: it is skipped and the
    events after it are applied as if it had not been there.
  */
  lemma ShutDownIsNotTerminal(s: PlayerState, before: seq<Event>, after: seq<Event>)
    ensures Replay(s, before + [PlayerShutDown] + after) == Replay(s, before + after)
  {
    ReplaySplit(s, before + [PlayerShutDown], after);
    ReplaySnoc(s, before, PlayerShutDown);
    ReplaySplit(s, before, after);
  }

  /** Replaying a concatenation is replaying the second part from where the first ended. */
  lemma {:induction false} ReplaySplit(s: PlayerState, es: seq<Event>, more: seq<Event>)
    ensures Replay(s, es + more) == Replay(Replay(s, es), more)
    decreases |es|
  {
    if es != [] {
      assert (es + more)[1..] == es[1..] + more;
      ReplaySplit(HandleEvent(s, es[0]), es[1..], more);
    } else {
      assert es + more == more;
    }
  }
}
