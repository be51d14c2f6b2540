/** Background music (`src/hooks/useBgm.ts`): a fixed two-track playlist, the current index,
    whether it plays, the volume and an error flag. The audio element is not modelled: its
    events (`play`, `pause`, `ended`, `error`) are methods, and what the hook asks of it
    (play or pause) is returned. */
module Bgm {
  import opened Wrappers
  import Js

  datatype Track = Track(id: string, title: string, src: string)

  /** `TRACKS`. */
  const Tracks: seq<Track> := [
    Track("1", "Lo-Fi Study 01", "/audio/lofi-01.mp3"),
    Track("2", "Lo-Fi Study 02", "/audio/lofi-02.mp3")
  ]

  /** What the hook asks of the audio element. */
  datatype AudioCall = Play | Pause

  /** `(i + 1) % TRACKS.length`, used by `next` and on `ended`. */
  function NextIndex(i: int): (r: int)
    ensures 0 <= i < |Tracks| ==> 0 <= r < |Tracks| && r != i
    ensures i >= -1 ==> 0 <= r < |Tracks| && r == (i + 1) % |Tracks|
  {
    Js.Rem(i + 1, |Tracks|)
  }

  /** `(i - 1 + TRACKS.length) % TRACKS.length`, used by `prev`. */
  function PrevIndex(i: int): (r: int)
    ensures 0 <= i < |Tracks| ==> 0 <= r < |Tracks| && r != i
  {
    Js.Rem(i - 1 + |Tracks|, |Tracks|)
  }

  /** Stepping forward and back are inverse on the playlist's indices. */
  lemma NextPrevInverse(i: int)
    requires 0 <= i < |Tracks|
    ensures PrevIndex(NextIndex(i)) == i && NextIndex(PrevIndex(i)) == i
  {
  }

  /** `Math.max(0, Math.min(1, vol))`. */
  function Clamp(v: real): (c: real)
    ensures 0.0 <= c <= 1.0
    ensures 0.0 <= v <= 1.0 ==> c == v
    ensures v < 0.0 ==> c == 0.0
    ensures v > 1.0 ==> c == 1.0
  {
    if v < 0.0 then 0.0 else if v > 1.0 then 1.0 else v
  }

  /** Setting an already clamped volume again keeps it. */
  lemma ClampIdempotent(v: real)
    ensures Clamp(Clamp(v)) == Clamp(v)
  {
  }

  /** `toggle`: plays a paused element and pauses a playing one. */
  function Toggle(paused: bool): (call: AudioCall)
    ensures call == Play <==> paused
  {
    if paused then Play else Pause
  }

  class Player {
    var index: int
    var isPlaying: bool
    var volume: real
    var hasError: bool

    /** Mounting: the first track, silent, at half volume, with no error. */
    constructor ()
      ensures index == 0 && !isPlaying && volume == 0.5 && !hasError
    {
      index, isPlaying, volume, hasError := 0, false, 0.5, false;
    }

    /** `currentTrack`; `undefined` when an unchecked `selectTrack` moved the index off the list. */
    function CurrentTrack(): (t: Option<Track>)
      reads this
      ensures t.Some? <==> 0 <= index < |Tracks|
      ensures t.Some? ==> t.value == Tracks[index]
    {
      if 0 <= index < |Tracks| then Some(Tracks[index]) else None
    }

    method Next()
      modifies this
      ensures index == NextIndex(old(index))
      ensures isPlaying == old(isPlaying) && volume == old(volume) && hasError == old(hasError)
    {
      index := NextIndex(index);
    }

    method Prev()
      modifies this
      ensures index == PrevIndex(old(index))
      ensures isPlaying == old(isPlaying) && volume == old(volume) && hasError == old(hasError)
    {
      index := PrevIndex(index);
    }

    /** The element's `ended` event: on to the next track, exactly like `next`. */
    method OnEnded()
      modifies this
      ensures index == NextIndex(old(index))
      ensures isPlaying == old(isPlaying) && volume == old(volume) && hasError == old(hasError)
    {
      Next();
    }

    /** The element's `error` event. */
    method OnError()
      modifies this
      ensures hasError && !isPlaying
      ensures index == old(index) && volume == old(volume)
    {
      hasError := true;
      isPlaying := false;
    }

    /** The element's `play` and `pause` events. */
    method OnPlaying(playing: bool)
      modifies this
      ensures isPlaying == playing
      ensures index == old(index) && volume == old(volume) && hasError == old(hasError)
    {
      isPlaying := playing;
    }

    /** `toggle`, given whether the element is paused; when it asks the element to play and the
        element refuses (`playRejected`), the player is marked as not playing. */
    method TogglePlayback(paused: bool, playRejected: bool) returns (call: AudioCall)
      modifies this
      ensures call == Toggle(paused)
      ensures isPlaying == if paused && playRejected then false else old(isPlaying)
      ensures index == old(index) && volume == old(volume) && hasError == old(hasError)
    {
      call := Toggle(paused);
      if call == Play && playRejected {
        isPlaying := false;
      }
    }

    /** `selectTrack`: the current index toggles playback; any other index, in range or not, becomes
        current. */
    method SelectTrack(i: int, paused: bool, playRejected: bool) returns (call: Option<AudioCall>)
      modifies this
      ensures i == old(index) ==> call == Some(Toggle(paused)) && index == old(index)
      ensures i == old(index) ==> isPlaying == if paused && playRejected then false else old(isPlaying)
      ensures i != old(index) ==> call.None? && index == i && isPlaying == old(isPlaying)
      ensures volume == old(volume) && hasError == old(hasError)
    {
      if i == index {
        var c := TogglePlayback(paused, playRejected);
        call := Some(c);
      } else {
        index := i;
        call := None;
      }
    }

    method SetVolume(v: real)
      modifies this
      ensures volume == Clamp(v)
      ensures index == old(index) && isPlaying == old(isPlaying) && hasError == old(hasError)
    {
      volume := Clamp(v);
    }

    /** The effect that follows a change of index: the error flag is reset, then the new track is
        loaded, and playback resumes if it was on (`playRejected`: the element refused to play).
        Loading throws when the index is off the list, after the flag was reset. */
    method OnIndexChange(playRejected: bool) returns (call: Option<AudioCall>, loaded: bool)
      modifies this
      ensures !hasError && index == old(index) && volume == old(volume)
      ensures loaded <==> 0 <= index < |Tracks|
      ensures call == Some(Play) <==> loaded && old(isPlaying)
      ensures isPlaying == (old(isPlaying) && !(loaded && playRejected))
    {
      hasError := false;
      call := None;
      loaded := 0 <= index < |Tracks|;
      if loaded && isPlaying {
        call := Some(Play);
        if playRejected {
          isPlaying := false;
        }
      }
    }
  }

  /** The index after pressing `next` (`true`) and `prev` (`false`) in turn. */
  function Walk(i: int, steps: seq<bool>): int
    requires 0 <= i < |Tracks|
    decreases |steps|
  {
    if steps == [] then i
    else Walk(if steps[0] then NextIndex(i) else PrevIndex(i), steps[1..])
  }

  /** Forward presses minus backward ones. */
  function Net(steps: seq<bool>): int {
    if steps == [] then 0 else (if steps[0] then 1 else -1) + Net(steps[1..])
  }

  /** Any walk over the playlist stays on it and ends where the net count of presses points,
      wrapping around. */
  lemma {:induction false} WalkLandsOnNet(i: int, steps: seq<bool>)
    requires 0 <= i < |Tracks|
    ensures 0 <= Walk(i, steps) < |Tracks|
    ensures Walk(i, steps) == (i + Net(steps)) % |Tracks|
    decreases |steps|
  {
    if steps != [] {
      var j := if steps[0] then NextIndex(i) else PrevIndex(i);
      WalkLandsOnNet(j, steps[1..]);
      assert j == (i + (if steps[0] then 1 else -1)) % 2;
    }
  }
}
