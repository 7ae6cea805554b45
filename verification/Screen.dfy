/** A viewer's queue on the relay (chat/src/network/screen/server.rs, ViewerQueue). */
module ViewerQueues {
  import opened Wrappers

  const VIEWER_VIDEO_BOUND: nat := 3
  const VIEWER_AUDIO_BOUND: nat := 8

  // A packet, and whether it is a keyframe.
  datatype Unit<T> = Unit(data: T, key: bool)

  datatype VideoPush = Queued | Shed

  datatype Item<T> = Video(data: T) | Audio(data: T)

  predicate HasKey<T>(q: seq<Unit<T>>) {
    exists i :: 0 <= i < |q| && q[i].key
  }

  // A keyframe replaces everything. A full queue sheds a delta, and with it everything unless a
  // keyframe is already on its way.
  function AfterVideo<T>(q: seq<Unit<T>>, u: Unit<T>): seq<Unit<T>> {
    if u.key then [u]
    else if |q| >= VIEWER_VIDEO_BOUND then (if HasKey(q) then q else [])
    else q + [u]
  }

  function Outcome<T>(q: seq<Unit<T>>, u: Unit<T>): VideoPush {
    if !u.key && |q| >= VIEWER_VIDEO_BOUND then Shed else Queued
  }

  function AfterAudio<T>(a: seq<T>, data: T): seq<T> {
    (if |a| >= VIEWER_AUDIO_BOUND then a[1..] else a) + [data]
  }

  class ViewerQueue<T(==)> {
    var video: seq<Unit<T>>
    var audio: seq<T>

    ghost predicate Valid()
      reads this
    {
      |video| <= VIEWER_VIDEO_BOUND && |audio| <= VIEWER_AUDIO_BOUND
    }

    constructor ()
      ensures Valid() && video == [] && audio == []
    {
      video, audio := [], [];
    }

    method PushVideo(data: T, keyframe: bool) returns (outcome: VideoPush)
      requires Valid()
      modifies this`video
      ensures Valid()
      ensures video == AfterVideo(old(video), Unit(data, keyframe))
      ensures outcome == Outcome(old(video), Unit(data, keyframe))
    {
      if keyframe {
        video := [];
        video := video + [Unit(data, true)];
        outcome := Queued;
      } else if |video| >= VIEWER_VIDEO_BOUND {
        var found := AnyKey();
        if !found { video := []; }
        outcome := Shed;
      } else {
        video := video + [Unit(data, false)];
        outcome := Queued;
      }
    }

    method AnyKey() returns (found: bool)
      ensures found == HasKey(video)
    {
      for i := 0 to |video|
        invariant forall j :: 0 <= j < i ==> !video[j].key
      {
        if video[i].key { return true; }
      }
      found := false;
    }

    method PushAudio(data: T)
      requires Valid()
      modifies this`audio
      ensures Valid()
      ensures audio == AfterAudio(old(audio), data)
    {
      if |audio| >= VIEWER_AUDIO_BOUND { audio := audio[1..]; }
      audio := audio + [data];
    }

    // What the writer sends next: audio before video.
    method Next() returns (item: Option<Item<T>>)
      requires Valid()
      modifies this
      ensures Valid()
      ensures old(audio) != [] ==> item == Some(Audio(old(audio)[0])) && audio == old(audio)[1..] && video == old(video)
      ensures old(audio) == [] && old(video) != [] ==>
        item == Some(Video(old(video)[0].data)) && video == old(video)[1..] && audio == []
      ensures old(audio) == [] && old(video) == [] ==> item == None && audio == [] && video == []
    {
      if audio != [] {
        item := Some(Audio(audio[0]));
        audio := audio[1..];
        return;
      }
      if video == [] { return None; }
      item := Some(Video(video[0].data));
      video := video[1..];
    }
  }
}

/** One running share and its viewers, as interleaved small steps of three kinds of task: attaches,
    the relay loop, and one writer per viewer. A frame is identified by its place in the sequence
    the relay forwards. */
module ScreenShare {
  import opened Wrappers
  import opened ViewerQueues

  // A frame: its index among the forwarded ones, and whether it is a keyframe.
  type Frame = Unit<nat>

  // Where a viewer is on its way from the attach to the relay loop.
  datatype Stage =
    | Spawned                            // writer running, queue empty
    | Looked(keyframe: Option<Frame>)    // the attach copied the share's last keyframe
    | Opened                             // and queued it
    | Pending                            // left for the relay loop
    | Serving                            // adopted by it
    | Retired                            // detached or replaced; the writer is aborted

  // The writer locks one queue at a time: noAudio is set once it found the audio queue empty and has yet
  // to look at the video queue.
  datatype Viewer = Viewer(
    stage: Stage,
    needsKey: bool,
    video: seq<Frame>,
    audio: seq<nat>,
    noAudio: bool,
    sent: seq<Frame>)

  // What the relay loop is doing.
  datatype Phase =
    | Idle
    | Received(frame: Frame)
    | Forwarding(frame: Frame, left: set<nat>)

  datatype Share = Share(forwarded: seq<bool>, cached: Option<Frame>, viewers: map<nat, Viewer>, phase: Phase)

  datatype Step =
    | Spawn(v: nat)
    | Look(v: nat)
    | Open(v: nat)
    | Leave(v: nat)
    | ReceiveVideo(key: bool)
    | Adopt                              // the arrivals of a video packet
    | AdoptForAudio                      // the arrivals of an audio packet
    | Retire(v: nat)
    | Forward(v: nat)
    | Keep
    | RelayAudio(v: nat, packet: nat)
    | PopAudio(v: nat)
    | PopVideo(v: nat)

  const Start: Share := Share([], None, map[], Idle)

  // One viewer's turn when the relay forwards a frame: while it waits for a keyframe, deltas are
  // skipped; a shed frame makes it wait.
  function Forwarded(v: Viewer, f: Frame): Viewer {
    if v.needsKey && !f.key then v
    else v.(video := AfterVideo(v.video, f), needsKey := Outcome(v.video, f).Shed?)
  }

  // The writer's first lock: an audio packet if there is one, else on to the video queue.
  function AudioPopped(v: Viewer): Viewer {
    if v.audio != [] then v.(audio := v.audio[1..]) else v.(noAudio := true)
  }

  // Its second lock, whatever arrived in the audio queue by then.
  function VideoPopped(v: Viewer): Viewer {
    if v.video != [] then v.(noAudio := false, video := v.video[1..], sent := v.sent + [v.video[0]])
    else v.(noAudio := false)
  }

  predicate Enabled(s: Share, step: Step) {
    match step
    case Spawn(v) => v !in s.viewers
    case Look(v) => v in s.viewers && s.viewers[v].stage.Spawned?
    case Open(v) => v in s.viewers && s.viewers[v].stage.Looked?
    case Leave(v) => v in s.viewers && s.viewers[v].stage.Opened?
    case ReceiveVideo(_) => s.phase.Idle?
    case Adopt => s.phase.Received?
    case AdoptForAudio => s.phase.Idle?
    case Retire(v) => v in s.viewers && !s.phase.Forwarding?
    case Forward(v) => s.phase.Forwarding? && v in s.phase.left && v in s.viewers
    case Keep => s.phase.Forwarding? && s.phase.left == {}
    case RelayAudio(v, _) => s.phase.Idle? && v in s.viewers && s.viewers[v].stage.Serving?
    case PopAudio(v) => v in s.viewers && !s.viewers[v].stage.Retired? && !s.viewers[v].noAudio
    case PopVideo(v) => v in s.viewers && !s.viewers[v].stage.Retired? && s.viewers[v].noAudio
  }

  function Adopted(v: Viewer): Viewer {
    if v.stage.Pending? then v.(stage := Serving) else v
  }

  function Serves(viewers: map<nat, Viewer>): set<nat> {
    set v | v in viewers && viewers[v].stage.Serving?
  }

  function Next(s: Share, step: Step): Share
    requires Enabled(s, step)
  {
    match step
    case Spawn(v) => s.(viewers := s.viewers[v := Viewer(Spawned, true, [], [], false, [])])
    case Look(v) => s.(viewers := s.viewers[v := s.viewers[v].(stage := Looked(s.cached))])
    case Open(v) =>
      var w := s.viewers[v];
      var q := if w.stage.keyframe.Some? then AfterVideo(w.video, w.stage.keyframe.value) else w.video;
      s.(viewers := s.viewers[v := w.(stage := Opened, video := q)])
    case Leave(v) => s.(viewers := s.viewers[v := s.viewers[v].(stage := Pending)])
    case ReceiveVideo(key) => s.(forwarded := s.forwarded + [key], phase := Received(Unit(|s.forwarded|, key)))
    case Adopt =>
      var viewers := map v | v in s.viewers :: Adopted(s.viewers[v]);
      s.(viewers := viewers, phase := Forwarding(s.phase.frame, Serves(viewers)))
    case AdoptForAudio => s.(viewers := map v | v in s.viewers :: Adopted(s.viewers[v]))
    case Retire(v) => s.(viewers := s.viewers[v := s.viewers[v].(stage := Retired)])
    case Forward(v) =>
      s.(viewers := s.viewers[v := Forwarded(s.viewers[v], s.phase.frame)], phase := s.phase.(left := s.phase.left - {v}))
    case Keep =>
      s.(cached := if s.phase.frame.key then Some(s.phase.frame) else s.cached, phase := Idle)
    case RelayAudio(v, packet) =>
      s.(viewers := s.viewers[v := s.viewers[v].(audio := AfterAudio(s.viewers[v].audio, packet))])
    case PopAudio(v) => s.(viewers := s.viewers[v := AudioPopped(s.viewers[v])])
    case PopVideo(v) => s.(viewers := s.viewers[v := VideoPopped(s.viewers[v])])
  }

  // ----- what has to hold -----

  // Opens on a keyframe, keeps the relay's order without a repeat, and every delta directly follows the
  // frame forwarded just before it.
  ghost predicate Playable(frames: seq<Frame>) {
    && (frames != [] ==> frames[0].key)
    && (forall i, j :: 0 <= i < j < |frames| ==> frames[i].data < frames[j].data)
    && forall i :: 1 <= i < |frames| && !frames[i].key ==> frames[i].data == frames[i - 1].data + 1
  }

  // The frame is one the relay forwarded.
  predicate Known(forwarded: seq<bool>, f: Frame) {
    f.data < |forwarded| && forwarded[f.data] == f.key
  }

  // Playable, and made of forwarded frames only.
  ghost predicate Genuine(forwarded: seq<bool>, frames: seq<Frame>) {
    && Playable(frames)
    && forall i :: 0 <= i < |frames| ==> Known(forwarded, frames[i])
  }

  // How many forwarded frames viewer v has had its turn for.
  function Turns(s: Share, v: nat): int {
    if s.phase.Received? || (s.phase.Forwarding? && v in s.phase.left) then |s.forwarded| - 1 else |s.forwarded|
  }

  // All frames lie before the given place.
  predicate Past(turns: int, frames: seq<Frame>) {
    frames != [] ==> frames[|frames| - 1].data < turns
  }

  // A viewer that had its turn for the first turns frames.
  ghost predicate ViewerOk(forwarded: seq<bool>, turns: int, w: Viewer) {
    var all := w.sent + w.video;
    && Genuine(forwarded, all) && Past(turns, all)
    && |w.video| <= VIEWER_VIDEO_BOUND && |w.audio| <= VIEWER_AUDIO_BOUND
    && (!w.needsKey ==> (w.stage.Serving? || w.stage.Retired?))
    && (w.stage.Serving? && !w.needsKey ==> all != [] && all[|all| - 1].data == turns - 1)
    && (w.stage.Spawned? || w.stage.Looked? ==> w.video == [] && w.sent == [])
    && (w.stage.Looked? && w.stage.keyframe.Some? ==>
          w.stage.keyframe.value.key && Known(forwarded, w.stage.keyframe.value) && w.stage.keyframe.value.data < turns)
  }

  ghost predicate ViewerSafe(s: Share, v: nat)
    requires v in s.viewers
  {
    ViewerOk(s.forwarded, Turns(s, v), s.viewers[v])
  }

  // How many frames the relay is done with.
  function Settled(s: Share): int {
    if s.phase.Idle? then |s.forwarded| else |s.forwarded| - 1
  }

  ghost predicate Safe(s: Share) {
    && (forall v :: v in s.viewers ==> ViewerSafe(s, v))
    && (s.cached.Some? ==> s.cached.value.key && Known(s.forwarded, s.cached.value) && s.cached.value.data < Settled(s))
    && (!s.phase.Idle? ==> s.phase.frame.data == |s.forwarded| - 1 && Known(s.forwarded, s.phase.frame))
    && (s.phase.Forwarding? ==> s.phase.left <= Serves(s.viewers))
  }

  // ----- one step -----

  lemma GenuineAppend(forwarded: seq<bool>, frames: seq<Frame>, f: Frame)
    requires Genuine(forwarded, frames) && Known(forwarded, f)
    requires Past(f.data, frames) && (f.key || (frames != [] && f.data == frames[|frames| - 1].data + 1))
    ensures Genuine(forwarded, frames + [f])
  {}

  lemma GenuinePrefix(forwarded: seq<bool>, a: seq<Frame>, b: seq<Frame>)
    requires Genuine(forwarded, a + b)
    ensures Genuine(forwarded, a)
    ensures forall turns :: Past(turns, a + b) ==> Past(turns, a)
  {
    assert a != [] && b != [] ==> (a + b)[|a| - 1].data < (a + b)[|a + b| - 1].data;
    forall i | 0 <= i < |a| ensures a[i] == (a + b)[i] && Known(forwarded, a[i]) {
      assert Known(forwarded, (a + b)[i]);
    }
  }

  lemma GenuineGrows(forwarded: seq<bool>, more: seq<bool>, frames: seq<Frame>)
    requires Genuine(forwarded, frames) && forwarded <= more
    ensures Genuine(more, frames)
  {}

  // Forwarding a frame keeps a serving viewer playable, and leaves it waiting or caught up.
  lemma ForwardedOk(forwarded: seq<bool>, turns: int, w: Viewer, f: Frame)
    requires ViewerOk(forwarded, turns, w) && w.stage.Serving?
    requires Known(forwarded, f) && f.data == turns
    ensures ViewerOk(forwarded, turns + 1, Forwarded(w, f))
  {
    hide Genuine, Known, HasKey;
    GenuinePrefix(forwarded, w.sent, w.video);
    if w.needsKey && !f.key {
    } else if f.key {
      GenuineAppend(forwarded, w.sent, f);
    } else if |w.video| >= VIEWER_VIDEO_BOUND {
      assert w.sent + [] == w.sent;
    } else {
      GenuineAppend(forwarded, w.sent + w.video, f);
      assert w.sent + (w.video + [f]) == w.sent + w.video + [f];
    }
  }

  // Opening on the cached keyframe.
  lemma OpenedOk(forwarded: seq<bool>, turns: int, w: Viewer, f: Frame)
    requires ViewerOk(forwarded, turns, w) && w.stage.Looked? && w.stage.keyframe == Some(f)
    ensures ViewerOk(forwarded, turns, w.(stage := Opened, video := AfterVideo(w.video, f)))
  {
    hide Genuine, Known;
    assert w.sent + w.video == [];
    GenuineAppend(forwarded, [], f);
    assert [] + [f] == [f];
  }

  lemma AudioPoppedOk(forwarded: seq<bool>, turns: int, w: Viewer)
    requires ViewerOk(forwarded, turns, w)
    ensures ViewerOk(forwarded, turns, AudioPopped(w))
  {
    hide Genuine, Known, Past;
  }

  lemma VideoPoppedOk(forwarded: seq<bool>, turns: int, w: Viewer)
    requires ViewerOk(forwarded, turns, w)
    ensures ViewerOk(forwarded, turns, VideoPopped(w))
  {
    hide Genuine, Known, Past;
    var x := VideoPopped(w);
    assert x.sent + x.video == w.sent + w.video;
  }

  // More forwarded frames do not hurt; how many turns were taken matters to a caught-up server only.
  lemma Later(forwarded: seq<bool>, more: seq<bool>, turns: int, later: int, w: Viewer)
    requires ViewerOk(forwarded, turns, w) && forwarded <= more && turns <= later
    requires w.stage.Serving? ==> later == turns
    ensures ViewerOk(more, later, w)
  {
    hide Genuine;
    GenuineGrows(forwarded, more, w.sent + w.video);
  }

  // Moving on along the attach, adoption and retirement change no frame.
  lemma StageOk(forwarded: seq<bool>, turns: int, later: int, w: Viewer, stage: Stage)
    requires ViewerOk(forwarded, turns, w) && turns <= later
    requires !w.needsKey ==> stage.Retired?
    requires stage.Looked? ==> w.video == [] && w.sent == []
    requires stage.Looked? && stage.keyframe.Some? ==>
      stage.keyframe.value.key && Known(forwarded, stage.keyframe.value) && stage.keyframe.value.data < later
    requires !stage.Spawned?
    ensures ViewerOk(forwarded, later, w.(stage := stage))
  {
    hide Genuine, Known;
  }

  lemma AudioOk(forwarded: seq<bool>, turns: int, w: Viewer, packet: nat)
    requires ViewerOk(forwarded, turns, w)
    ensures ViewerOk(forwarded, turns, w.(audio := AfterAudio(w.audio, packet)))
  {
    hide Genuine, Known;
  }

  lemma StepKeepsSafe(s: Share, step: Step)
    requires Safe(s) && Enabled(s, step)
    ensures Safe(Next(s, step))
  {
    var s' := Next(s, step);
    forall v | v in s'.viewers ensures ViewerSafe(s', v) {
      StepKeepsViewer(s, step, v);
    }
    StepKeepsShare(s, step);
  }

  lemma StepKeepsShare(s: Share, step: Step)
    requires Safe(s) && Enabled(s, step)
    ensures var s' := Next(s, step);
            && (s'.cached.Some? ==> s'.cached.value.key && Known(s'.forwarded, s'.cached.value) && s'.cached.value.data < Settled(s'))
            && (!s'.phase.Idle? ==> s'.phase.frame.data == |s'.forwarded| - 1 && Known(s'.forwarded, s'.phase.frame))
            && (s'.phase.Forwarding? ==> s'.phase.left <= Serves(s'.viewers))
  {
    hide ViewerSafe, AfterVideo, Outcome, AfterAudio;
  }

  // The viewer a step is about, if it is about one.
  predicate About(step: Step, v: nat) {
    match step
    case Spawn(u) => u == v
    case Look(u) => u == v
    case Open(u) => u == v
    case Leave(u) => u == v
    case Retire(u) => u == v
    case Forward(u) => u == v
    case RelayAudio(u, _) => u == v
    case PopAudio(u) => u == v
    case PopVideo(u) => u == v
    case ReceiveVideo(_) => false
    case Adopt => false
    case AdoptForAudio => false
    case Keep => false
  }

  lemma StepKeepsViewer(s: Share, step: Step, v: nat)
    requires Safe(s) && Enabled(s, step) && v in Next(s, step).viewers
    ensures ViewerSafe(Next(s, step), v)
  {
    if About(step, v) {
      StepKeepsItsViewer(s, step, v);
    } else {
      StepKeepsOthers(s, step, v);
    }
  }

  lemma StepKeepsOthers(s: Share, step: Step, v: nat)
    requires Safe(s) && Enabled(s, step) && v in Next(s, step).viewers && !About(step, v)
    ensures ViewerSafe(Next(s, step), v)
  {
    hide ViewerOk, AfterVideo, Outcome, AfterAudio, Known;
    var s' := Next(s, step);
    var w := s.viewers[v];
    assert ViewerSafe(s, v);
    if step.Adopt? || step.AdoptForAudio? {
      if w.stage.Pending? {
        PendingWaits(s.forwarded, Turns(s, v), w);
        StageOk(s.forwarded, Turns(s, v), Turns(s', v), w, Serving);
      } else {
        Later(s.forwarded, s'.forwarded, Turns(s, v), Turns(s', v), w);
      }
    } else {
      Later(s.forwarded, s'.forwarded, Turns(s, v), Turns(s', v), w);
    }
  }

  // Until it is adopted a viewer waits for a keyframe.
  lemma PendingWaits(forwarded: seq<bool>, turns: int, w: Viewer)
    requires ViewerOk(forwarded, turns, w) && !w.stage.Serving? && !w.stage.Retired?
    ensures w.needsKey
    ensures w.stage.Spawned? || w.stage.Looked? ==> w.video == [] && w.sent == []
  {}

  lemma StepKeepsItsViewer(s: Share, step: Step, v: nat)
    requires Safe(s) && Enabled(s, step) && v in Next(s, step).viewers && About(step, v)
    ensures ViewerSafe(Next(s, step), v)
  {
    hide ViewerOk, AfterVideo, Outcome, AfterAudio, Known, AudioPopped, VideoPopped, Forwarded;
    var s' := Next(s, step);
    var n := Turns(s, v);
    if step.Spawn? {
      NewViewer(s', v);
      return;
    }
    var w := s.viewers[v];
    assert ViewerSafe(s, v);
    match step
    case Look(_) =>
      PendingWaits(s.forwarded, n, w);
      StageOk(s.forwarded, n, n, w, Looked(s.cached));
    case Open(_) =>
      PendingWaits(s.forwarded, n, w);
      if w.stage.keyframe.Some? {
        OpenedOk(s.forwarded, n, w, w.stage.keyframe.value);
      } else {
        StageOk(s.forwarded, n, n, w, Opened);
      }
    case Leave(_) =>
      PendingWaits(s.forwarded, n, w);
      StageOk(s.forwarded, n, n, w, Pending);
    case Retire(_) => StageOk(s.forwarded, n, n, w, Retired);
    case Forward(_) =>
      assert v in Serves(s.viewers);
      ForwardedOk(s.forwarded, n, w, s.phase.frame);
    case RelayAudio(_, packet) => AudioOk(s.forwarded, n, w, packet);
    case PopAudio(_) => AudioPoppedOk(s.forwarded, n, w);
    case PopVideo(_) => VideoPoppedOk(s.forwarded, n, w);
  }

  lemma NewViewer(s: Share, v: nat)
    requires v in s.viewers && s.viewers[v] == Viewer(Spawned, true, [], [], false, [])
    ensures ViewerSafe(s, v)
  {}

  // ----- every run -----

  ghost predicate Run(states: seq<Share>, steps: seq<Step>) {
    && |states| == |steps| + 1 && states[0] == Start
    && forall i :: 0 <= i < |steps| ==> Enabled(states[i], steps[i]) && states[i + 1] == Next(states[i], steps[i])
  }

  lemma {:induction false} RunSafe(states: seq<Share>, steps: seq<Step>, i: nat)
    requires Run(states, steps) && i < |states|
    ensures Safe(states[i])
  {
    hide Safe, Next, Enabled;
    if i == 0 {
      StartSafe();
    } else {
      RunSafe(states, steps, i - 1);
      StepKeepsSafe(states[i - 1], steps[i - 1]);
    }
  }

  lemma StartSafe()
    ensures Safe(Start)
  {}

  // For every interleaving: what any viewer has been sent opens on a keyframe, consists of forwarded
  // frames in the relay's order without a repeat, and each delta in it comes directly after the frame
  // forwarded just before it; the queues keep their bounds.
  lemma SentIsPlayable(states: seq<Share>, steps: seq<Step>, i: nat, v: nat)
    requires Run(states, steps) && i < |states| && v in states[i].viewers
    ensures Playable(states[i].viewers[v].sent)
    ensures forall f :: f in states[i].viewers[v].sent ==> Known(states[i].forwarded, f)
    ensures |states[i].viewers[v].video| <= VIEWER_VIDEO_BOUND && |states[i].viewers[v].audio| <= VIEWER_AUDIO_BOUND
  {
    hide Next, Enabled, Playable;
    RunSafe(states, steps, i);
    assert ViewerSafe(states[i], v);
    GenuinePrefix(states[i].forwarded, states[i].viewers[v].sent, states[i].viewers[v].video);
  }

  // ----- shedding and recovery -----

  ghost predicate CaughtUp(s: Share, v: nat) {
    v in s.viewers && s.viewers[v].stage.Serving? && !s.viewers[v].needsKey
  }

  // Waiting for a keyframe, with these frames sent or queued.
  ghost predicate Waiting(s: Share, v: nat, frames: seq<Frame>) {
    v in s.viewers && s.viewers[v].stage.Serving? && s.viewers[v].needsKey && s.viewers[v].sent + s.viewers[v].video == frames
  }

  // The step is the turn of viewer v for a delta that meets its full queue.
  predicate Sheds(s: Share, step: Step, v: nat) {
    step == Forward(v) && Enabled(s, step) && !s.phase.frame.key && |s.viewers[v].video| >= VIEWER_VIDEO_BOUND
  }

  predicate Rekeys(s: Share, step: Step, v: nat) {
    step == Forward(v) && Enabled(s, step) && s.phase.frame.key
  }

  // A keyframe catches a viewer up, alone in its queue.
  lemma KeyframeRecovers(s: Share, v: nat)
    requires Safe(s) && Rekeys(s, Forward(v), v)
    ensures CaughtUp(Next(s, Forward(v)), v)
    ensures var w := Next(s, Forward(v)).viewers[v];
            w.video == [Unit(|s.forwarded| - 1, true)] && w.sent == s.viewers[v].sent
  {}

  // A viewer that is caught up falls behind exactly by a shed or by leaving.
  lemma ShedIff(s: Share, step: Step, v: nat)
    requires CaughtUp(s, v) && Enabled(s, step)
    ensures !CaughtUp(Next(s, step), v) <==> Sheds(s, step, v) || step == Retire(v)
  {
    hide AfterAudio, HasKey;
  }

  lemma StillWaiting(s: Share, step: Step, v: nat, frames: seq<Frame>)
    requires Waiting(s, v, frames) && Enabled(s, step) && !Rekeys(s, step, v) && step != Retire(v)
    ensures Waiting(Next(s, step), v, frames)
  {
    hide AfterAudio, AfterVideo, Outcome;
    var w := s.viewers[v];
    assert VideoPopped(w).sent + VideoPopped(w).video == w.sent + w.video;
  }

  // Over any run a viewer whose turn came for a keyframe stays caught up with the relay until a delta
  // meets its full queue: the last frame sent or queued is the last one it had its turn for.
  lemma {:induction false} CaughtUpUntilShed(states: seq<Share>, steps: seq<Step>, i: nat, j: nat, v: nat)
    requires Run(states, steps) && i < j < |states| && Rekeys(states[i], steps[i], v)
    requires forall t :: i < t < j ==> !Sheds(states[t], steps[t], v) && steps[t] != Retire(v)
    ensures CaughtUp(states[j], v)
    ensures var w := states[j].viewers[v];
            var all := w.sent + w.video;
            all != [] && all[|all| - 1].data == Turns(states[j], v) - 1
    decreases j
  {
    hide Next, Enabled, Sheds, Rekeys, Genuine;
    if j == i + 1 {
      RunSafe(states, steps, i);
      IsForward(states[i], steps[i], v);
      KeyframeRecovers(states[i], v);
    } else {
      CaughtUpUntilShed(states, steps, i, j - 1, v);
      ShedIff(states[j - 1], steps[j - 1], v);
    }
    RunSafe(states, steps, j);
    assert ViewerSafe(states[j], v);
  }

  lemma IsForward(s: Share, step: Step, v: nat)
    requires Rekeys(s, step, v)
    ensures step == Forward(v)
  {}

  // And a viewer that shed gets nothing more queued until its turn comes for a keyframe.
  lemma {:induction false} WaitsUntilKeyframe(states: seq<Share>, steps: seq<Step>, i: nat, j: nat, v: nat, frames: seq<Frame>)
    requires Run(states, steps) && i <= j < |states| && Waiting(states[i], v, frames)
    requires forall t :: i <= t < j ==> !Rekeys(states[t], steps[t], v) && steps[t] != Retire(v)
    ensures Waiting(states[j], v, frames)
    decreases j
  {
    hide Next, Enabled, Rekeys, Waiting;
    if i < j {
      WaitsUntilKeyframe(states, steps, i, j - 1, v, frames);
      StillWaiting(states[j - 1], steps[j - 1], v, frames);
    }
  }

  // ----- what a turn does, on the frames alone -----

  // A keyframe is left alone in the queue. A delta is skipped while the viewer waits, queued while there is
  // room, and otherwise shed: a queued keyframe saves the queue, without one it is emptied.
  lemma TurnLaw(s: Share, v: nat)
    requires Enabled(s, Forward(v))
    ensures var w, x, f := s.viewers[v], Next(s, Forward(v)).viewers[v], s.phase.frame;
            && x.sent == w.sent && x.audio == w.audio
            && (f.key ==> x.video == [f] && !x.needsKey)
            && (!f.key && w.needsKey ==> x == w)
            && (!f.key && !w.needsKey && |w.video| < 3 ==> x.video == w.video + [f] && !x.needsKey)
            && (!f.key && !w.needsKey && |w.video| >= 3 ==>
                  && x.needsKey
                  && ((exists i :: 0 <= i < |w.video| && w.video[i].key) ==> x.video == w.video)
                  && ((forall i :: 0 <= i < |w.video| ==> !w.video[i].key) ==> x.video == []))
  {}

  // A keyframe a viewer holds or was sent stays with it through every step but its next keyframe turn.
  lemma StepKeepsKeyframe(s: Share, step: Step, v: nat, f: Frame)
    requires Enabled(s, step) && v in s.viewers && !Rekeys(s, step, v)
    requires f.key && f in s.viewers[v].sent + s.viewers[v].video
    requires s.viewers[v].stage.Serving? || s.viewers[v].stage.Retired?
    ensures var x := Next(s, step).viewers;
            v in x && f in x[v].sent + x[v].video && (x[v].stage.Serving? || x[v].stage.Retired?)
  {
    hide AfterAudio;
    var w := s.viewers[v];
    if step == Forward(v) {
      if f in w.video {
        var i :| 0 <= i < |w.video| && w.video[i] == f;
        assert HasKey(w.video);
      }
    }
  }

  // Over any run a keyframe a viewer had its turn for stays in what it was sent or has queued until its
  // turn for the next one, whatever is shed.
  lemma {:induction false} KeyframeKept(states: seq<Share>, steps: seq<Step>, i: nat, j: nat, v: nat)
    requires Run(states, steps) && i < j < |states| && Rekeys(states[i], steps[i], v)
    requires forall t :: i < t < j ==> !Rekeys(states[t], steps[t], v)
    ensures v in states[j].viewers
    ensures states[i].phase.frame in states[j].viewers[v].sent + states[j].viewers[v].video
    ensures states[j].viewers[v].stage.Serving? || states[j].viewers[v].stage.Retired?
    decreases j
  {
    hide Next, Enabled, Rekeys, Safe;
    RunSafe(states, steps, i);
    IsForward(states[i], steps[i], v);
    if j == i + 1 {
      KeyframeRecovers(states[i], v);
      RekeysFrame(states[i], steps[i], v);
    } else {
      KeyframeKept(states, steps, i, j - 1, v);
      RekeysFrame(states[i], steps[i], v);
      StepKeepsKeyframe(states[j - 1], steps[j - 1], v, states[i].phase.frame);
    }
  }

  lemma RekeysFrame(s: Share, step: Step, v: nat)
    requires Rekeys(s, step, v) && Safe(s)
    ensures s.phase.Forwarding? && s.phase.frame == Unit(|s.forwarded| - 1, true)
  {}

  // ----- the cached keyframe -----

  // The last keyframe among these frames.
  function LastKey(forwarded: seq<bool>): Option<Frame> {
    if forwarded == [] then None
    else if forwarded[|forwarded| - 1] then Some(Unit(|forwarded| - 1, true))
    else LastKey(forwarded[..|forwarded| - 1])
  }

  ghost predicate CachedOk(s: Share) {
    0 <= Settled(s) <= |s.forwarded| && s.cached == LastKey(s.forwarded[..Settled(s)])
  }

  lemma StepKeepsCached(s: Share, step: Step)
    requires Safe(s) && Enabled(s, step) && CachedOk(s)
    ensures CachedOk(Next(s, step))
  {
    hide AfterVideo, AfterAudio, Outcome, ViewerSafe;
    var t := Next(s, step);
    var n := |s.forwarded|;
    if step.ReceiveVideo? {
      assert t.forwarded[..n] == s.forwarded == s.forwarded[..n];
    } else if step.Keep? {
      assert s.forwarded[..n] == s.forwarded;
    }
  }

  // In every reachable state the cached keyframe is the last one among the frames the relay is done with,
  // and there is none if none of them was a keyframe.
  lemma {:induction false} CachedIsLatest(states: seq<Share>, steps: seq<Step>, i: nat)
    requires Run(states, steps) && i < |states|
    ensures CachedOk(states[i])
  {
    hide Safe, Next, Enabled, CachedOk;
    if i == 0 {
      NothingCached();
    } else {
      CachedIsLatest(states, steps, i - 1);
      RunSafe(states, steps, i - 1);
      StepKeepsCached(states[i - 1], steps[i - 1]);
    }
  }

  lemma NothingCached()
    ensures CachedOk(Start)
  {}

  // ----- attaching, and every viewer's turn -----

  lemma LookedStays(s: Share, step: Step, v: nat)
    requires Safe(s) && Enabled(s, step) && v in s.viewers && s.viewers[v].stage.Looked?
    requires step != Open(v) && step != Retire(v)
    ensures v in Next(s, step).viewers && Next(s, step).viewers[v].stage == s.viewers[v].stage
  {
    hide AfterAudio, AfterVideo, Outcome, ViewerSafe;
  }

  lemma {:induction false} LookedUntilOpen(states: seq<Share>, steps: seq<Step>, i: nat, j: nat, v: nat)
    requires Run(states, steps) && i < j < |states| && steps[i] == Look(v)
    requires forall t :: i < t < j ==> steps[t] != Open(v) && steps[t] != Retire(v)
    ensures v in states[j].viewers && states[j].viewers[v].stage == Looked(states[i].cached)
    decreases j
  {
    hide Safe;
    if j > i + 1 {
      LookedUntilOpen(states, steps, i, j - 1, v);
      RunSafe(states, steps, j - 1);
      LookedStays(states[j - 1], steps[j - 1], v);
    }
  }

  // A viewer opens on the last keyframe the relay was done with when its attach looked, and on nothing if
  // there was none.
  lemma OpensOnLatest(states: seq<Share>, steps: seq<Step>, i: nat, j: nat, v: nat)
    requires Run(states, steps) && i < j < |steps| && steps[i] == Look(v) && steps[j] == Open(v)
    requires forall t :: i < t < j ==> steps[t] != Open(v) && steps[t] != Retire(v)
    ensures 0 <= Settled(states[i]) <= |states[i].forwarded|
    ensures v in states[j + 1].viewers
    ensures var w, last := states[j + 1].viewers[v], LastKey(states[i].forwarded[..Settled(states[i])]);
            w.sent == [] && w.video == if last.Some? then [last.value] else []
  {
    hide Safe, LastKey;
    CachedIsLatest(states, steps, i);
    LookedUntilOpen(states, steps, i, j, v);
    RunSafe(states, steps, j);
    OpenedIs(states[j], v);
  }

  lemma OpenedIs(s: Share, v: nat)
    requires Safe(s) && Enabled(s, Open(v))
    ensures var w, k := Next(s, Open(v)).viewers[v], s.viewers[v].stage.keyframe;
            w.sent == [] && w.video == if k.Some? then [k.value] else []
  {
    hide HasKey;
    assert ViewerSafe(s, v);
  }

  lemma LeftShrinks(s: Share, step: Step, v: nat)
    requires Enabled(s, step) && s.phase.Forwarding? && v in s.phase.left && step != Forward(v)
    ensures Next(s, step).phase.Forwarding? && v in Next(s, step).phase.left
  {
    hide AfterAudio, AfterVideo, Outcome;
  }

  lemma {:induction false} LeftUntilTurn(states: seq<Share>, steps: seq<Step>, i: nat, j: nat, v: nat)
    requires Run(states, steps) && i <= j < |states| && states[i].phase.Forwarding? && v in states[i].phase.left
    requires forall t :: i <= t < j ==> steps[t] != Forward(v)
    ensures states[j].phase.Forwarding? && v in states[j].phase.left
    decreases j
  {
    hide Next, Enabled;
    if i < j {
      LeftUntilTurn(states, steps, i, j - 1, v);
      LeftShrinks(states[j - 1], steps[j - 1], v);
    }
  }

  // Every viewer that serves or waits to be adopted when the relay takes up a frame gets its turn for it
  // before the relay is done with the frame.
  lemma EveryViewerGetsATurn(states: seq<Share>, steps: seq<Step>, i: nat, j: nat, v: nat)
    requires Run(states, steps) && i < j < |steps| && steps[i] == Adopt && steps[j] == Keep
    requires v in states[i].viewers && (states[i].viewers[v].stage.Serving? || states[i].viewers[v].stage.Pending?)
    ensures exists t :: i < t < j && steps[t] == Forward(v)
  {
    hide Next;
    assert Enabled(states[i], steps[i]) && Enabled(states[j], steps[j]);
    AdoptQueues(states[i], v);
    assert states[i + 1] == Next(states[i], steps[i]);
    if forall t :: i < t < j ==> steps[t] != Forward(v) {
      LeftUntilTurn(states, steps, i + 1, j, v);
    }
  }

  lemma AdoptQueues(s: Share, v: nat)
    requires Enabled(s, Adopt) && v in s.viewers && (s.viewers[v].stage.Serving? || s.viewers[v].stage.Pending?)
    ensures var t := Next(s, Adopt);
            t.phase.Forwarding? && v in t.phase.left && t.phase.frame == s.phase.frame
  {}

  // The audio queue holds the last eight packets at most, in order.
  lemma AudioIsLatest(audio: seq<nat>, packet: nat)
    requires |audio| <= 8
    ensures var all := audio + [packet];
            AfterAudio(audio, packet) == all[if |all| > 8 then |all| - 8 else 0..]
  {}

  // An audio turn leaves the latest eight packets, and touches nothing else.
  lemma AudioTurnLaw(s: Share, v: nat, packet: nat)
    requires Safe(s) && Enabled(s, RelayAudio(v, packet))
    ensures var w, x := s.viewers[v], Next(s, RelayAudio(v, packet)).viewers[v];
            var all := w.audio + [packet];
            x == w.(audio := all[if |all| > 8 then |all| - 8 else 0..])
  {
    assert ViewerSafe(s, v);
    AudioIsLatest(s.viewers[v].audio, packet);
  }

  // The writer takes the oldest audio packet, and the oldest frame only after it found no audio; what it
  // takes from the video queue is what it sends.
  lemma PopLaw(s: Share, v: nat)
    ensures Enabled(s, PopAudio(v)) ==>
      var w, x := s.viewers[v], Next(s, PopAudio(v)).viewers[v];
      && x.sent == w.sent && x.video == w.video
      && (w.audio != [] ==> x.audio == w.audio[1..] && !x.noAudio)
      && (w.audio == [] ==> x.audio == [] && x.noAudio)
    ensures Enabled(s, PopVideo(v)) ==>
      var w, x := s.viewers[v], Next(s, PopVideo(v)).viewers[v];
      && x.audio == w.audio && !x.noAudio
      && x.sent + x.video == w.sent + w.video
      && |x.sent| == |w.sent| + (if w.video == [] then 0 else 1)
  {}

  // ----- from the attach to the relay -----

  lemma PendingStays(s: Share, step: Step, v: nat)
    requires Enabled(s, step) && v in s.viewers && s.viewers[v].stage.Pending?
    requires step != Adopt && step != AdoptForAudio && step != Retire(v)
    ensures v in Next(s, step).viewers && Next(s, step).viewers[v].stage.Pending?
  {
    hide AfterAudio, AfterVideo, Outcome;
  }

  lemma {:induction false} PendingUntilAdopted(states: seq<Share>, steps: seq<Step>, i: nat, j: nat, v: nat)
    requires Run(states, steps) && i < j < |states| && steps[i] == Leave(v)
    requires forall t :: i < t < j ==> steps[t] != Adopt && steps[t] != AdoptForAudio && steps[t] != Retire(v)
    ensures v in states[j].viewers && states[j].viewers[v].stage.Pending?
    decreases j
  {
    if j > i + 1 {
      PendingUntilAdopted(states, steps, i, j - 1, v);
      PendingStays(states[j - 1], steps[j - 1], v);
    }
  }

  // A viewer its attach left for the relay serves from the first packet the relay takes up after that, be
  // it video or audio, unless it went away meanwhile.
  lemma AdoptedNext(states: seq<Share>, steps: seq<Step>, i: nat, j: nat, v: nat)
    requires Run(states, steps) && i < j < |steps| && steps[i] == Leave(v)
    requires forall t :: i < t < j ==> steps[t] != Adopt && steps[t] != AdoptForAudio && steps[t] != Retire(v)
    requires steps[j] == Adopt || steps[j] == AdoptForAudio
    ensures v in states[j + 1].viewers && states[j + 1].viewers[v].stage.Serving?
  {
    PendingUntilAdopted(states, steps, i, j, v);
    assert Enabled(states[j], steps[j]) && states[j + 1] == Next(states[j], steps[j]);
  }
}
