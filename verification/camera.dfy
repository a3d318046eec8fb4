/**
 * The tap-to-capture camera: picking and flipping between video devices, a
 * four-second countdown started by a tap, capturing a frame when it reaches
 * zero, and retaking.
 *
 * A frame grab is a parameter: None when the video or canvas is not ready,
 * otherwise the image's data URL.
 */
module Camera {
  import opened Options
  import opened Seqs

  const CountdownSeconds: nat := 4

  datatype State = State(devices: seq<string>, selected: Option<string>, image: Option<string>,
                         countdown: Option<nat>)

  const Initial := State([], None, None, None)

  /** The device list arrived: keep the video devices and select the first. */
  function DevicesFound(s: State, video: seq<string>): (r: State)
    ensures r.devices == video && r.image == s.image && r.countdown == s.countdown
    ensures |video| > 0 ==> r.selected == Some(video[0])
    ensures |video| == 0 ==> r.selected == s.selected
  {
    if |video| > 0 then s.(devices := video, selected := Some(video[0])) else s.(devices := video)
  }

  /** `findIndex(d => d === selected)`, -1 when absent. */
  function IndexOf(devices: seq<string>, selected: Option<string>): (i: int)
    ensures -1 <= i < |devices|
    ensures i >= 0 ==> Some(devices[i]) == selected && forall j :: 0 <= j < i ==> Some(devices[j]) != selected
    ensures i == -1 ==> forall j :: 0 <= j < |devices| ==> Some(devices[j]) != selected
  {
    if |devices| == 0 then -1
    else if Some(devices[0]) == selected then 0
    else
      var i := IndexOf(devices[1..], selected);
      if i == -1 then -1 else i + 1
  }

  /** `flipCamera`: with two or more devices select the next one, wrapping; an unknown selection goes to the first. */
  function Flip(s: State): (r: State)
    ensures r == s.(selected := r.selected)
    ensures |s.devices| < 2 ==> r == s
    ensures |s.devices| >= 2 ==> r.selected == Some(s.devices[(IndexOf(s.devices, s.selected) + 1) % |s.devices|])
  {
    if |s.devices| < 2 then s
    else
      var next := (IndexOf(s.devices, s.selected) + 1) % |s.devices|;
      s.(selected := Some(s.devices[next]))
  }

  /** With distinct device ids, flipping advances the selection by one place, cyclically. */
  lemma FlipAdvances(s: State)
    requires |s.devices| >= 2 && NoDuplicates(s.devices)
    ensures IndexOf(s.devices, Flip(s).selected) == (IndexOf(s.devices, s.selected) + 1) % |s.devices|
  {
    var n := |s.devices|;
    var next := (IndexOf(s.devices, s.selected) + 1) % n;
    var j := IndexOf(s.devices, Flip(s).selected);
    assert j >= 0 by {
      assert Some(s.devices[next]) == Flip(s).selected;
    }
    assert s.devices[j] == s.devices[next];
  }

  /** `handleTap`: no effect once an image exists or a countdown runs; otherwise start the countdown. */
  function Tap(s: State): (r: State)
    ensures s.image.Some? || s.countdown.Some? ==> r == s
    ensures s.image.None? && s.countdown.None? ==> r == s.(countdown := Some(CountdownSeconds))
  {
    if s.image.Some? then s
    else if s.countdown.None? then s.(countdown := Some(CountdownSeconds))
    else s
  }

  /** `capture`: store the grabbed frame and hand it on; nothing when there is no frame. */
  function Capture(s: State, frame: Option<string>): (State, Option<string>) {
    match frame
    case None => (s, None)
    case Some(url) => (s.(image := Some(url)), Some(url))
  }

  /**
   * One second of the countdown: it steps down, and reaching zero captures a
   * frame; at zero no timer is pending, so nothing more happens.
   * Returns the new state and the image passed to `onCapture`, if any.
   */
  function Tick(s: State, frame: Option<string>): (r: (State, Option<string>))
    ensures s.countdown.None? || s.countdown == Some(0) ==> r == (s, None)
    ensures r.1.Some? <==> s.countdown == Some(1) && frame.Some?
    ensures r.1.Some? ==> r.0.image == r.1 && r.1 == frame
    ensures s.countdown.Some? && s.countdown.value > 0 ==> r.0.countdown == Some(s.countdown.value - 1)
    ensures r.0.devices == s.devices && r.0.selected == s.selected
  {
    match s.countdown
    case None => (s, None)
    case Some(n) =>
      if n == 0 then (s, None)
      else if n == 1 then Capture(s.(countdown := Some(0)), frame)
      else (s.(countdown := Some(n - 1)), None)
  }

  /** `retakePhoto`: discard the image and the countdown. */
  function Retake(s: State): (r: State)
    ensures r.image.None? && r.countdown.None?
    ensures r.devices == s.devices && r.selected == s.selected
  {
    s.(image := None, countdown := None)
  }

  /** `n` seconds in a row: the final state and what each second handed on. */
  function Ticks(s: State, n: nat, frame: Option<string>): (State, seq<Option<string>>)
    decreases n
  {
    if n == 0 then (s, [])
    else
      var step := Tick(s, frame);
      var rest := Ticks(step.0, n - 1, frame);
      (rest.0, [step.1] + rest.1)
  }

  /** A tap followed by four seconds captures the frame at the fourth second, and only then. */
  lemma TapThenFourSeconds(s: State, url: string)
    requires s.image.None? && s.countdown.None?
    ensures var (r, outs) := Ticks(Tap(s), CountdownSeconds, Some(url));
      && outs == [None, None, None, Some(url)]
      && r.image == Some(url) && r.countdown == Some(0)
  {
    var s0 := Tap(s);
    assert s0.countdown == Some(4);
    var s1 := Tick(s0, Some(url)).0;
    var s2 := Tick(s1, Some(url)).0;
    var s3 := Tick(s2, Some(url)).0;
    assert s3.countdown == Some(1);
    var s4 := s3.(countdown := Some(0), image := Some(url));
    assert Tick(s3, Some(url)) == (s4, Some(url));
    assert Ticks(s4, 0, Some(url)) == (s4, []);
    assert [Some(url)] + [] == [Some(url)];
    assert Ticks(s3, 1, Some(url)) == (s4, [Some(url)]);
    assert Ticks(s2, 2, Some(url)).1 == [None, Some(url)];
    assert Ticks(s1, 3, Some(url)).1 == [None, None, Some(url)];
  }

  /** A photo is only ever held once the countdown has run out: capture sets both together. */
  predicate Inv(s: State) {
    s.image.Some? ==> s.countdown == Some(0)
  }

  /** The camera starts without a photo, and every event keeps a photo tied to a finished countdown. */
  lemma InvPreserved(s: State, video: seq<string>, frame: Option<string>)
    requires Inv(s)
    ensures Inv(Initial)
    ensures Inv(DevicesFound(s, video)) && Inv(Flip(s)) && Inv(Tap(s))
    ensures Inv(Tick(s, frame).0) && Inv(Retake(s))
  {
  }

  /** In every state the events can reach, a shown photo blocks taps and seconds. */
  lemma ReachableImageBlocks(s: State, frame: Option<string>)
    requires Inv(s) && s.image.Some?
    ensures Tap(s) == s && Tick(s, frame) == (s, None)
  {
    ImageBlocksCapture(s, frame);
  }

  /** Seconds passing never change the devices or the selection. */
  lemma {:induction false} TicksKeepDevice(s: State, n: nat, frame: Option<string>)
    ensures Ticks(s, n, frame).0.devices == s.devices && Ticks(s, n, frame).0.selected == s.selected
    decreases n
  {
    if n > 0 {
      TicksKeepDevice(Tick(s, frame).0, n - 1, frame);
    }
  }

  /** After a retake, a tap and four seconds capture the new frame, on the same device. */
  lemma RetakeThenCapture(s: State, url: string)
    ensures var (r, outs) := Ticks(Tap(Retake(s)), CountdownSeconds, Some(url));
      && outs == [None, None, None, Some(url)]
      && r.image == Some(url) && r.devices == s.devices && r.selected == s.selected
  {
    TapThenFourSeconds(Retake(s), url);
    TicksKeepDevice(Tap(Retake(s)), CountdownSeconds, Some(url));
  }

  /** With two or more distinct cameras found, the first flip selects the second of them. */
  lemma DevicesFoundThenFlip(s: State, video: seq<string>)
    requires |video| >= 2 && NoDuplicates(video)
    ensures IndexOf(DevicesFound(s, video).devices, DevicesFound(s, video).selected) == 0
    ensures Flip(DevicesFound(s, video)).selected == Some(video[1])
  {
    var d := DevicesFound(s, video);
    assert IndexOf(video, Some(video[0])) == 0;
  }

  /** While an image is shown, taps and seconds change nothing until a retake. */
  lemma ImageBlocksCapture(s: State, frame: Option<string>)
    requires s.image.Some? && (s.countdown.None? || s.countdown == Some(0))
    ensures Tap(s) == s && Tick(s, frame) == (s, None)
  {
  }
}
