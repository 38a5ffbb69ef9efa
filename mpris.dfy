/**
  The values the MPRIS binding hands to the modelled code. The binding itself (D-Bus, the
  player processes) is outside the model; only the shape of its data is stated here.
*/
module Mpris {

  type Int16 = x: int | -0x8000 <= x < 0x8000
  type Int32 = x: int | -0x8000_0000 <= x < 0x8000_0000
  type Int64 = x: int | -0x8000_0000_0000_0000 <= x < 0x8000_0000_0000_0000
  type UInt8 = x: int | 0 <= x < 0x100
  type UInt16 = x: int | 0 <= x < 0x1_0000
  type UInt32 = x: int | 0 <= x < 0x1_0000_0000
  type UInt64 = x: int | 0 <= x < 0x1_0000_0000_0000_0000

  /**
    One value of a track's metadata. The floating-point, array and map variants of the
    binding are not part of this model.
  */
  datatype MetadataValue =
    | String(text: string)
    | I16(i16: Int16)
    | I32(i32: Int32)
    | I64(i64: Int64)
    | U8(u8: UInt8)
    | U16(u16: UInt16)
    | U32(u32: UInt32)
    | U64(u64: UInt64)
    | Bool(flag: bool)
    | Unsupported

  /** The key/value bag describing the current track; the default metadata is empty. */
  type Metadata = map<string, MetadataValue>

  const DefaultMetadata: Metadata := map[]

  datatype PlaybackStatus = Playing | Paused | Stopped

  /** `mpris::LoopStatus`; its `None` variant is called `NoLoop` here. */
  datatype LoopStatus = NoLoop | Track | Playlist

  type TrackId = string

  /** `mpris::Event`: what a player pushes on its event stream. */
  datatype Event =
    | TrackChanged(metadata: Metadata)
    | Playing
    | Paused
    | Stopped
    | LoopingChanged(loopStatus: LoopStatus)
    | ShuffleToggled(shuffle: bool)
    | VolumeChanged(volume: real)
    | Seeked(positionInUs: nat)
    | PlayerShutDown
    | TrackAdded(added: TrackId)
    | TrackRemoved(removed: TrackId)
    | TrackMetadataChanged(oldId: TrackId, newId: TrackId)
    | TrackListReplaced
    | PlaybackRateChanged(rate: real)

  /** A live player, known by its D-Bus bus name and its human-readable identity. */
  datatype Player = Player(busName: string, identity: string)
}
