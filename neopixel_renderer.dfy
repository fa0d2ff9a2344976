/**
 * The renderer: a registry of LED strips keyed by output name, and the
 * playback buffer of frames waiting for their time. Each method is proved
 * to compute the corresponding buffer function of `Playback`.
 */
module Renderer {
  import opened Wrappers
  import opened RgbFrames
  import opened Playback
  import Config

  // ---------------------------------------------------------------------------
  // Board pins and the strip driver.
  // ---------------------------------------------------------------------------

  /** The GPIO data pins a strip can be driven from. */
  datatype BoardPin = D10 | D12 | D18 | D21

  /** The configuration name of a board pin. */
  function PinName(p: BoardPin): string {
    match p
    case D10 => "D10"
    case D12 => "D12"
    case D18 => "D18"
    case D21 => "D21"
  }

  /** `__board_pin_from_string`: the board pin a configuration names, if it names one. */
  function BoardPinFromString(pin: string): (r: Option<BoardPin>)
    ensures r.Some? <==> pin in Config.SupportedPins
    ensures r.Some? ==> PinName(r.value) == pin
  {
    if pin == "D10" then Some(D10)
    else if pin == "D12" then Some(D12)
    else if pin == "D18" then Some(D18)
    else if pin == "D21" then Some(D21)
    else None
  }

  /** Every board pin is found again from its name. */
  lemma BoardPinRoundTrip(p: BoardPin)
    ensures BoardPinFromString(PinName(p)) == Some(p)
  {
  }

  /**
   * An LED strip on a board pin: `n` pixels held in a buffer that `Show`
   * flushes to the LEDs, an integer brightness percent, and whether the pin
   * is still held.
   */
  class NeoPixel {
    const pin: BoardPin
    const n: nat
    const pixels: array<Rgb>
    const brightness: int
    var shows: nat
    var live: bool

    /** Acquires the strip with every pixel off. */
    constructor (pin: BoardPin, n: nat, brightness: int)
      ensures this.pin == pin && this.n == n && this.brightness == brightness
      ensures fresh(pixels) && pixels.Length == n && pixels[..] == seq(n, _ => Rgb(0, 0, 0))
      ensures shows == 0 && live
    {
      this.pin := pin;
      this.n := n;
      this.brightness := brightness;
      pixels := new Rgb[n](_ => Rgb(0, 0, 0));
      shows := 0;
      live := true;
    }

    /** Flushes the pixel buffer to the LEDs once. */
    method Show()
      modifies this`shows
      ensures shows == old(shows) + 1
    {
      shows := shows + 1;
    }

    /** Releases the data pin. */
    method Deinit()
      modifies this`live
      ensures !live
    {
      live := false;
    }
  }

  /**
   * The pixel buffer `px` after `data` is written from its start: pixel `i`
   * takes `data[i]` while both last, and every other pixel keeps its colour.
   */
  function Painted(px: seq<Rgb>, data: seq<Rgb>): (r: seq<Rgb>)
    ensures |r| == |px|
  {
    seq(|px|, i requires 0 <= i < |px| => if i < |data| then data[i] else px[i])
  }

  /**
   * Writing a frame at least as long as the strip sets every pixel, whatever
   * the strip showed before; writing the same frame twice is writing it once.
   */
  lemma PaintedProperties(px: seq<Rgb>, px': seq<Rgb>, data: seq<Rgb>)
    ensures |px| == |px'| && |data| >= |px| ==> Painted(px, data) == Painted(px', data) == data[..|px|]
    ensures Painted(Painted(px, data), data) == Painted(px, data)
    ensures data == [] ==> Painted(px, data) == px
  {
  }

  /** The pixel-writing loop of `render_frame`: `min(n, len(data))` pixels from the start. */
  method WritePixels(pixels: array<Rgb>, data: seq<Rgb>)
    modifies pixels
    ensures pixels[..] == Painted(old(pixels[..]), data)
  {
    var m := if pixels.Length <= |data| then pixels.Length else |data|;
    for i := 0 to m
      invariant forall t | 0 <= t < pixels.Length ::
        pixels[t] == if t < i then data[t] else old(pixels[t])
    {
      pixels[i] := data[i];
    }
  }

  /** Whether the strip driver can be acquired for `config`: a known pin and a non-negative length. */
  predicate Acquirable(config: Config.NeoPixelConfig) {
    config.pin in Config.SupportedPins && config.leds >= 0
  }

  /** Every configuration in `configs` can be acquired, checked back to front. */
  predicate AllAcquirable(configs: seq<Config.NeoPixelConfig>) {
    configs == [] || (AllAcquirable(configs[..|configs| - 1]) && Acquirable(configs[|configs| - 1]))
  }

  /** `AllAcquirable` holds exactly when each configuration can be acquired. */
  lemma AllAcquirableSpec(configs: seq<Config.NeoPixelConfig>)
    ensures AllAcquirable(configs) <==> forall t {:trigger Acquirable(configs[t])} | 0 <= t < |configs| :: Acquirable(configs[t])
  {
    for i := 0 to |configs|
      invariant AllAcquirable(configs[..i]) <==> forall t {:trigger Acquirable(configs[t])} | 0 <= t < i :: Acquirable(configs[t])
    {
      AllAcquirableStep(configs, i);
    }
    assert configs[..|configs|] == configs;
  }

  /** One configuration more is acquirable along with the shorter prefix, or not at all. */
  lemma AllAcquirableStep(configs: seq<Config.NeoPixelConfig>, i: nat)
    requires i < |configs|
    ensures AllAcquirable(configs[..i + 1]) <==> AllAcquirable(configs[..i]) && Acquirable(configs[i])
  {
    var p := configs[..i + 1];
    assert p[..|p| - 1] == configs[..i] && p[|p| - 1] == configs[i];
  }

  /** A configuration that passes validation can always be acquired. */
  lemma ValidConfigAcquirable(config: Config.NeoPixelConfig)
    requires Config.CheckValidity(config).valid
    ensures Acquirable(config)
  {
  }

  /** What happened to the strips, in order: the audit trail of acquisitions and releases. */
  datatype DeviceEvent = Released(key: string) | Acquired(key: string, pin: string)

  /** The release of each key, in order. */
  function Releases(keys: seq<string>): (r: seq<DeviceEvent>)
    ensures |r| == |keys|
    ensures forall t | 0 <= t < |r| :: r[t] == Released(keys[t])
  {
    if keys == [] then [] else Releases(keys[..|keys| - 1]) + [Released(keys[|keys| - 1])]
  }

  /** The acquisitions of `update_configs`, one per configuration, each keyed by its pin. */
  function Acquisitions(configs: seq<Config.NeoPixelConfig>): (r: seq<DeviceEvent>)
    ensures |r| == |configs|
    ensures forall t | 0 <= t < |r| :: r[t] == Acquired(configs[t].pin, configs[t].pin)
  {
    if configs == [] then []
    else
      var c := configs[|configs| - 1];
      Acquisitions(configs[..|configs| - 1]) + [Acquired(c.pin, c.pin)]
  }

  /** The last configuration in `configs` for output `pin`, if any. */
  function LastFor(configs: seq<Config.NeoPixelConfig>, pin: string): Option<Config.NeoPixelConfig> {
    if configs == [] then None
    else if configs[|configs| - 1].pin == pin then Some(configs[|configs| - 1])
    else LastFor(configs[..|configs| - 1], pin)
  }

  /**
   * `LastFor` finds a configuration exactly when some configuration is for
   * `pin`, and the one it finds is for `pin` with no later one for `pin`.
   */
  lemma {:induction false} LastForSpec(configs: seq<Config.NeoPixelConfig>, pin: string)
    ensures LastFor(configs, pin).Some? <==> exists t | 0 <= t < |configs| :: configs[t].pin == pin
    ensures LastFor(configs, pin).Some? ==>
      && LastFor(configs, pin).value.pin == pin
      && exists t | 0 <= t < |configs| :: configs[t] == LastFor(configs, pin).value && forall u | t < u < |configs| :: configs[u].pin != pin
  {
    if configs != [] && configs[|configs| - 1].pin != pin {
      var init := configs[..|configs| - 1];
      LastForSpec(init, pin);
      assert forall t | 0 <= t < |init| :: init[t] == configs[t];
    }
  }

  /** One configuration more: it is the last for its own pin, and the others keep theirs. */
  lemma LastForStep(configs: seq<Config.NeoPixelConfig>, j: nat)
    requires j < |configs|
    ensures forall pin ::
      LastFor(configs[..j + 1], pin) == (if configs[j].pin == pin then Some(configs[j]) else LastFor(configs[..j], pin))
  {
    var p := configs[..j + 1];
    assert p != [] && p[..|p| - 1] == configs[..j] && p[|p| - 1] == configs[j];
    forall pin
      ensures LastFor(p, pin) == (if configs[j].pin == pin then Some(configs[j]) else LastFor(configs[..j], pin))
    {
    }
  }

  /** Registering a strip set up as the next configuration asks extends the registry to it. */
  lemma RegistersStep(registry: map<string, NeoPixel>, configs: seq<Config.NeoPixelConfig>, j: nat, np: NeoPixel)
    requires j < |configs| && Registers(registry, configs[..j]) && Configured(np, configs[j])
    ensures Registers(registry[configs[j].pin := np], configs[..j + 1])
  {
    LastForStep(configs, j);
  }

  /** The pins the configurations name. */
  function Pins(configs: seq<Config.NeoPixelConfig>): set<string> {
    set t | 0 <= t < |configs| :: configs[t].pin
  }

  /** One configuration more adds its pin. */
  lemma PinsStep(configs: seq<Config.NeoPixelConfig>, j: nat)
    requires j < |configs|
    ensures Pins(configs[..j + 1]) == Pins(configs[..j]) + {configs[j].pin}
  {
    var p := configs[..j + 1];
    assert forall t | 0 <= t < j :: p[t] == configs[..j][t];
    assert p[j] == configs[j];
  }

  /** Every registered strip is set up as the last configuration for its key asks. */
  ghost predicate Registers(registry: map<string, NeoPixel>, configs: seq<Config.NeoPixelConfig>)
    reads set k | k in registry :: registry[k]
  {
    forall k | k in registry :: LastFor(configs, k).Some? && Configured(registry[k], LastFor(configs, k).value)
  }

  /** A strip set up as `config` asks: its pin, its length and its brightness. */
  ghost predicate Configured(np: NeoPixel, config: Config.NeoPixelConfig)
    reads np`live
  {
    PinName(np.pin) == config.pin && np.n == config.leds && np.brightness == config.brightness
    && np.pixels.Length == np.n && np.live
  }

  /** What a strip shows: its pixel buffer and how often it has been flushed. */
  datatype StripView = StripView(pixels: seq<Rgb>, shows: nat)

  /** The strip `v` after `data` is painted over it and it is flushed once. */
  function Flushed(v: StripView, data: seq<Rgb>): StripView {
    StripView(Painted(v.pixels, data), v.shows + 1)
  }

  /** A strip as acquired: `n` pixels, all off, never flushed. */
  function Unlit(n: nat): StripView {
    StripView(seq(n, _ => Rgb(0, 0, 0)), 0)
  }

  /** What each strip shows, by output name. */
  ghost function ViewOf(registry: map<string, NeoPixel>): map<string, StripView>
    reads (set k | k in registry :: registry[k])`shows, set k | k in registry :: registry[k].pixels
  {
    map k | k in registry :: StripView(registry[k].pixels[..], registry[k].shows)
  }

  /** The strips `v` after each frame of `frames` naming one of them is painted over it, in order. */
  function PaintAll(v: map<string, StripView>, frames: seq<RgbFrame>): map<string, StripView> {
    if frames == [] then v
    else
      var w := PaintAll(v, frames[..|frames| - 1]);
      var f := frames[|frames| - 1];
      if f.pin in w then w[f.pin := Flushed(w[f.pin], f.rgbData)] else w
  }

  /**
   * Painting frames that name distinct strips paints each named strip once
   * and leaves every other strip as it was.
   */
  lemma {:induction false} PaintAllSpec(v: map<string, StripView>, frames: seq<RgbFrame>)
    requires OnePerPin(frames)
    ensures PaintAll(v, frames).Keys == v.Keys
    ensures forall f | f in frames && f.pin in v :: PaintAll(v, frames)[f.pin] == Flushed(v[f.pin], f.rgbData)
    ensures forall k | k in v && !HasPin(frames, k) :: PaintAll(v, frames)[k] == v[k]
    decreases |frames|
  {
    if frames != [] {
      var init := frames[..|frames| - 1];
      var last := frames[|frames| - 1];
      assert OnePerPin(init);
      PaintAllSpec(v, init);
      forall f | f in frames && f.pin in v
        ensures PaintAll(v, frames)[f.pin] == Flushed(v[f.pin], f.rgbData)
      {
        if f != last {
          var a :| 0 <= a < |frames| && frames[a] == f;
          assert a < |frames| - 1 && init[a] == f;
          assert f.pin != last.pin;
        } else {
          assert !HasPin(init, f.pin);
        }
      }
      forall k | k in v && !HasPin(frames, k)
        ensures PaintAll(v, frames)[k] == v[k]
      {
        assert !HasPin(init, k);
      }
    }
  }

  /** A pass that stops before `frames[t]` leaves every strip no frame names as it was. */
  lemma PaintedPrefix(v: map<string, StripView>, frames: seq<RgbFrame>, t: nat)
    requires t <= |frames| && OnePerPin(frames)
    ensures RenderedOver(v, frames, false, PaintAll(v, frames[..t]))
  {
    assert OnePerPin(frames[..t]);
    PaintAllSpec(v, frames[..t]);

  }

  /** Removing a key and then setting it is setting it. */
  lemma Replaced<V>(m: map<string, V>, key: string, x: V)
    ensures (m - {key})[key := x] == m[key := x]
  {
    assert ((m - {key})[key := x]).Keys == m[key := x].Keys;
  }

  /** Registering a strip under `key` sets what `key` shows to what that strip shows. */
  lemma ViewOfSet(registry: map<string, NeoPixel>, key: string, np: NeoPixel)
    ensures ViewOf(registry[key := np]) == ViewOf(registry)[key := StripView(np.pixels[..], np.shows)]
  {
  }

  /**
   * A render pass of the frames `due` takes the strips from `v` to `v'`:
   * when it completes, every due frame is painted over its strip, which is
   * flushed once more; a strip no due frame names is left as it was.
   */
  predicate RenderedOver(v: map<string, StripView>, due: seq<RgbFrame>, complete: bool, v': map<string, StripView>) {
    && v'.Keys == v.Keys
    && (complete ==> forall f | f in due :: f.pin in v && v'[f.pin] == Flushed(v[f.pin], f.rgbData))
    && (forall k | k in v && !HasPin(due, k) :: v'[k] == v[k])
  }

  /**
   * One step of a scan of `s` whose first `j` frames have become `done`,
   * with the cursor `i` on frame `s[j]`: keeping that frame or removing it
   * leaves the scan in the same shape one frame further.
   */
  lemma ScanStep(buf: seq<RgbFrame>, i: nat, done: seq<RgbFrame>, s: seq<RgbFrame>, j: nat)
    requires j < |s| && buf == done + s[j..] && i == |done|
    ensures i < |buf| && buf[i] == s[j]
    ensures buf == (done + [s[j]]) + s[j + 1..]
    ensures buf[..i] + buf[i + 1..] == done + s[j + 1..]
  {
    assert buf[..i] == done;
    assert buf[i + 1..] == s[j + 1..];
  }

  /**
   * The selection loop of `render_queue` after `j` frames of `frames`: the
   * buffer holds the frames kept so far, before the cursor `i`, then the
   * frames not yet seen; `toRender` holds the frames chosen so far.
   */
  ghost predicate Selecting(frames: seq<RgbFrame>, now: int, j: nat, buf: seq<RgbFrame>, i: nat, toRender: seq<RgbFrame>) {
    j <= |frames| && buf == Collect(frames, now, Hold, j) + frames[j..] && i == |Collect(frames, now, Hold, j)|
    && toRender == Collect(frames, now, Render, j)
  }

  /**
   * One step of the selection loop of `render_queue`: how the buffer, the
   * cursor and the chosen frames move on, per verdict on frame `j`.
   */
  lemma SelectStep(frames: seq<RgbFrame>, now: int, j: nat, buf: seq<RgbFrame>, i: nat, toRender: seq<RgbFrame>)
    requires j < |frames| && Selecting(frames, now, j, buf, i, toRender)
    ensures i < |buf| && buf[i] == frames[j] && |buf| - i == |frames| - j
    ensures VerdictAt(frames, now, j) == Hold ==> Selecting(frames, now, j + 1, buf, i + 1, toRender)
    ensures VerdictAt(frames, now, j) == Render ==>
      Selecting(frames, now, j + 1, buf[..i] + buf[i + 1..], i, toRender + [buf[i]])
    ensures VerdictAt(frames, now, j) == Drop ==> Selecting(frames, now, j + 1, buf[..i] + buf[i + 1..], i, toRender)
  {
    ScanStep(buf, i, Collect(frames, now, Hold, j), frames, j);
    CollectNext(frames, now, j);
  }

  /** A finished selection loop has the frames to render and the buffer a pass leaves. */
  lemma SelectDone(frames: seq<RgbFrame>, now: int, buf: seq<RgbFrame>, i: nat, toRender: seq<RgbFrame>)
    requires Selecting(frames, now, |frames|, buf, i, toRender)
    ensures toRender == ToRender(frames, now) && buf == Remaining(frames, now)
  {
    assert frames[|frames|..] == [];
  }

  /**
   * A frame within tolerance is held when a frame for its output is already
   * among those chosen, and rendered otherwise.
   */
  lemma InsideVerdict(frames: seq<RgbFrame>, now: int, j: nat, buf: seq<RgbFrame>, i: nat, toRender: seq<RgbFrame>)
    requires j < |frames| && Selecting(frames, now, j, buf, i, toRender) && InTolerance(frames[j], now)
    ensures VerdictAt(frames, now, j) == if HasPin(toRender, frames[j].pin) then Hold else Render
  {
    RenderedPins(frames, now, j, frames[j].pin);
  }

  /** A frame outside tolerance is dropped when stale, and held otherwise. */
  lemma OutsideVerdict(frames: seq<RgbFrame>, now: int, j: nat)
    requires j < |frames| && !InTolerance(frames[j], now)
    ensures VerdictAt(frames, now, j) == if IsStale(frames[j], now) then Drop else Hold
  {
  }

  /** The inner loop of `render_queue`: whether a frame for `pin` is already chosen. */
  method AnyOnPin(frames: seq<RgbFrame>, pin: string) returns (found: bool)
    ensures found <==> HasPin(frames, pin)
  {
    found := false;
    for t := 0 to |frames|
      invariant found <==> exists u | 0 <= u < t :: frames[u].pin == pin
    {
      found := found || frames[t].pin == pin;
    }
  }

  /**
   * The selection loop of `render_queue` at time `now` (milliseconds) on
   * the buffer: walks it with a cursor; a frame within tolerance is moved to
   * `toRender` unless a frame for its output already was, a stale frame is
   * removed, and every other frame stays.
   */
  method SelectFrames(frames: seq<RgbFrame>, now: int) returns (toRender: seq<RgbFrame>, buf: seq<RgbFrame>)
    ensures toRender == ToRender(frames, now)
    ensures buf == Remaining(frames, now)
  {
    var threshold := ToleranceMs;
    buf := frames;
    toRender := [];
    var i := 0;
    ghost var j := 0;
    assert frames[0..] == frames;
    while i < |buf|
      invariant Selecting(frames, now, j, buf, i, toRender)
      invariant |buf| - i == |frames| - j
      decreases |buf| - i
    {
      SelectStep(frames, now, j, buf, i, toRender);
      var frame := buf[i];
      var diff := if frame.timestamp < now then now - frame.timestamp else frame.timestamp - now;
      if diff <= threshold {
        var matching := AnyOnPin(toRender, frame.pin);
        InsideVerdict(frames, now, j, buf, i, toRender);
        if matching {
          i := i + 1;
        } else {
          toRender := toRender + [frame];
          buf := buf[..i] + buf[i + 1..];
        }
      } else {
        OutsideVerdict(frames, now, j);
        if frame.timestamp < now - StaleMs {
          buf := buf[..i] + buf[i + 1..];
        } else {
          i := i + 1;
        }
      }
      j := j + 1;
    }
    SelectDone(frames, now, buf, i, toRender);
  }

  /** One step of the purge loop of `update_configs`, for a frame kept and for a frame removed. */
  lemma PurgeStep(frames: seq<RgbFrame>, keys: set<string>, j: nat, buf: seq<RgbFrame>, i: nat)
    requires j < |frames|
    requires buf == KeepConfigured(frames[..j], keys) + frames[j..] && i == |KeepConfigured(frames[..j], keys)|
    ensures i < |buf| && buf[i] == frames[j]
    ensures frames[j].pin in keys ==>
      buf == KeepConfigured(frames[..j + 1], keys) + frames[j + 1..] && i + 1 == |KeepConfigured(frames[..j + 1], keys)|
    ensures frames[j].pin !in keys ==>
      buf[..i] + buf[i + 1..] == KeepConfigured(frames[..j + 1], keys) + frames[j + 1..]
      && i == |KeepConfigured(frames[..j + 1], keys)|
  {
    ScanStep(buf, i, KeepConfigured(frames[..j], keys), frames, j);
    FilterPrefixStep(frames, keys, true, j);
  }

  /**
   * The purge loop of `update_configs` on the buffer: walks it with a
   * cursor, removing each frame whose output is not among `keys`.
   */
  method PurgeFrames(frames: seq<RgbFrame>, keys: set<string>) returns (buf: seq<RgbFrame>)
    ensures buf == KeepConfigured(frames, keys)
  {
    buf := frames;
    var i := 0;
    ghost var j := 0;
    while i < |buf|
      invariant 0 <= j <= |frames|
      invariant buf == KeepConfigured(frames[..j], keys) + frames[j..]
      invariant i == |KeepConfigured(frames[..j], keys)| && |buf| == i + |frames| - j
      decreases |buf| - i
    {
      PurgeStep(frames, keys, j, buf, i);
      var frame := buf[i];
      var keep := KeyMatches(keys, frame.pin);
      if keep {
        i := i + 1;
      } else {
        buf := buf[..i] + buf[i + 1..];
      }
      j := j + 1;
    }
    assert frames[..j] == frames;
  }

  /** The inner loop of the purge in `update_configs`: whether `pin` is among the registry's keys. */
  method KeyMatches(keys: set<string>, pin: string) returns (keep: bool)
    ensures keep <==> pin in keys
  {
    keep := false;
    var rest := keys;
    while rest != {}
      invariant rest <= keys
      invariant keep <==> pin in keys - rest
      decreases |rest|
    {
      var k :| k in rest;
      keep := keep || k == pin;
      rest := rest - {k};
    }
  }

  /** Distinct outputs have distinct strips and distinct pixel buffers. */
  ghost predicate DistinctStrips(registry: map<string, NeoPixel>) {
    forall k, k' | k in registry && k' in registry && k != k' ::
      registry[k] != registry[k'] && registry[k].pixels != registry[k'].pixels
  }

  /** Registering a strip that shares nothing with the registered ones keeps the strips distinct. */
  lemma RegisterDistinct(registry: map<string, NeoPixel>, key: string, np: NeoPixel)
    requires DistinctStrips(registry)
    requires forall k | k in registry :: registry[k] != np && registry[k].pixels != np.pixels
    ensures DistinctStrips(registry[key := np])
  {
  }

  /** The strips of a registry and their pixel buffers. */
  ghost function Footprint(registry: map<string, NeoPixel>): (objs: set<object>)
    ensures forall k | k in registry :: registry[k] in objs && registry[k].pixels in objs
  {
    (set k | k in registry :: registry[k] as object) + (set k | k in registry :: registry[k].pixels as object)
  }

  /** Registering a strip adds at most that strip and its pixel buffer to the footprint. */
  lemma FootprintUpdate(registry: map<string, NeoPixel>, key: string, np: NeoPixel)
    ensures Footprint(registry[key := np]) <= Footprint(registry) + {np, np.pixels}
  {
  }

  /**
   * A registry built from the configurations `prefix`: one strip per pin
   * they name, set up by the last of them for that pin, no two sharing a
   * strip or a pixel buffer.
   */
  ghost predicate BuiltFrom(registry: map<string, NeoPixel>, prefix: seq<Config.NeoPixelConfig>)
    reads set k | k in registry :: registry[k]
  {
    registry.Keys == Pins(prefix) && Registers(registry, prefix) && DistinctStrips(registry)
  }

  /** Registering a new strip for the next configuration extends the registry built so far. */
  lemma BuiltFromStep(registry: map<string, NeoPixel>, configs: seq<Config.NeoPixelConfig>, j: nat, np: NeoPixel)
    requires j < |configs| && BuiltFrom(registry, configs[..j]) && Configured(np, configs[j])
    requires np !in Footprint(registry) && np.pixels !in Footprint(registry)
    ensures BuiltFrom(registry[configs[j].pin := np], configs[..j + 1])
    ensures Footprint(registry[configs[j].pin := np]) <= Footprint(registry) + {np, np.pixels}
  {
    RegistersStep(registry, configs, j, np);
    PinsStep(configs, j);
    FootprintUpdate(registry, configs[j].pin, np);
    RegisterDistinct(registry, configs[j].pin, np);
  }

  /**
   * The acquisition loop of `update_configs`: acquires a strip for each
   * configuration in order, registering it under the configuration's pin,
   * until the driver fails. `acquired` is how many configurations were
   * acquired; the registry holds, per pin, the last of them for that pin.
   */
  method AcquireEach(configs: seq<Config.NeoPixelConfig>) returns (registry: map<string, NeoPixel>, acquired: nat)
    ensures acquired <= |configs|
    ensures forall t {:trigger Acquirable(configs[t])} | 0 <= t < acquired :: Acquirable(configs[t])
    ensures acquired < |configs| ==> !Acquirable(configs[acquired])
    ensures registry.Keys == Pins(configs[..acquired])
    ensures Registers(registry, configs[..acquired])
    ensures DistinctStrips(registry)
    ensures fresh(Footprint(registry))
  {
    registry := map[];
    acquired := 0;
    ghost var made: set<object> := {};
    while acquired < |configs|
      invariant acquired <= |configs|
      invariant AllAcquirable(configs[..acquired])
      invariant BuiltFrom(registry, configs[..acquired])
      invariant Footprint(registry) <= made && fresh(made)
    {
      var r := NeoPixelFromConfig(configs[acquired]);
      if r.None? {
        break;
      }
      AllAcquirableStep(configs, acquired);
      BuiltFromStep(registry, configs, acquired, r.value);
      registry := registry[configs[acquired].pin := r.value];
      made := made + {r.value, r.value.pixels};
      acquired := acquired + 1;
    }
    AllAcquirableSpec(configs[..acquired]);
  }

  /**
   * The release loop of `update_configs`: deinitialises every strip of the
   * registry once, in an order the model leaves open, which `released` records.
   */
  method ReleaseEach(registry: map<string, NeoPixel>) returns (released: seq<string>)
    modifies set k | k in registry :: registry[k]
    ensures forall k | k in registry :: !registry[k].live
    ensures forall k :: k in released <==> k in registry
    ensures |released| == |registry|
  {
    var keys := registry.Keys;
    released := [];
    while keys != {}
      invariant keys <= registry.Keys
      invariant forall k :: k in released <==> k in registry && k !in keys
      invariant |released| + |keys| == |registry|
      invariant forall k | k in registry && k !in keys :: !registry[k].live
      decreases |keys|
    {
      var k :| k in keys;
      registry[k].Deinit();
      released := released + [k];
      keys := keys - {k};
    }
  }

  /** `__neopixel_from_config`: acquires a strip for `config`, or fails as the driver does. */
  method NeoPixelFromConfig(config: Config.NeoPixelConfig) returns (r: Option<NeoPixel>)
    ensures r.Some? <==> Acquirable(config)
    ensures r.Some? ==> fresh(r.value) && fresh(r.value.pixels)
    ensures r.Some? ==>
      && r.value.pin == BoardPinFromString(config.pin).value && r.value.n == config.leds
      && r.value.pixels.Length == r.value.n && r.value.brightness == config.brightness
      && r.value.shows == 0 && r.value.live && r.value.pixels[..] == seq(config.leds, _ => Rgb(0, 0, 0))
  {
    var pin := BoardPinFromString(config.pin);
    if pin.None? || config.leds < 0 {
      return None;
    }
    var np := new NeoPixel(pin.value, config.leds, config.brightness);
    return Some(np);
  }

  // ---------------------------------------------------------------------------
  // Two statements of the renderer as written, which the model above corrects.
  // ---------------------------------------------------------------------------

  /** An exception the code as written raises. */
  datatype Raised = AttributeError(name: string) | KeyError(key: string) | ValueError

  /** Reading a text attribute of a configuration: only `id` and `pin` exist. */
  function ConfigAttribute(config: Config.NeoPixelConfig, name: string): Result<string, Raised> {
    if name == "id" then Success(config.id)
    else if name == "pin" then Success(config.pin)
    else Failure(AttributeError(name))
  }

  /**
   * `update_config` as written, on the keys of the registry: it tests the
   * configuration's `uuid`, removes the entry under the configuration's pin
   * and registers the new strip under the `uuid`.
   */
  function UpdateConfigAsWritten(keys: set<string>, config: Config.NeoPixelConfig): Result<set<string>, Raised> {
    match ConfigAttribute(config, "uuid")
    case Failure(e) => Failure(e)
    case Success(uuid) =>
      if uuid !in keys then Success(keys + {uuid})
      else if config.pin in keys then Success(keys - {config.pin} + {uuid})
      else Failure(KeyError(config.pin))
  }

  /** As written, `update_config` raises on every configuration, before touching the registry. */
  lemma UpdateConfigAsWrittenRaises(keys: set<string>, config: Config.NeoPixelConfig)
    ensures UpdateConfigAsWritten(keys, config) == Failure(AttributeError("uuid"))
  {
  }

  /**
   * The diagnostic loop of `render_frame` as written: iterating the registry
   * yields its keys, and unpacking a key into two names succeeds only for a
   * key of exactly two characters; any other raises `ValueError`.
   */
  method LogRegistryAsWritten(keys: set<string>) returns (ok: bool)
    ensures ok <==> forall k | k in keys :: |k| == 2
  {
    ok := true;
    var rest := keys;
    while rest != {}
      invariant rest <= keys
      invariant ok <==> forall k | k in keys - rest :: |k| == 2
      decreases |rest|
    {
      var k :| k in rest;
      ok := ok && |k| == 2;
      rest := rest - {k};
    }
  }

  /**
   * As written, `render_frame` paints nothing on a registry keyed by pins,
   * as `update_configs` builds it: a non-empty registry fails the
   * diagnostic loop, and an empty one has no strip to look up.
   */
  lemma RenderFrameAsWrittenRaises(keys: set<string>, pin: string)
    requires keys <= Config.SupportedPins
    ensures !((forall k | k in keys :: |k| == 2) && pin in keys)
  {
    if pin in keys {
      assert |pin| == 3;
    }
  }

  // ---------------------------------------------------------------------------
  // The renderer.
  // ---------------------------------------------------------------------------

  class NeoPixelRenderer {
    /** The configured strips by output name. */
    var neopixels: map<string, NeoPixel>
    /** Frames waiting for their time, in ascending timestamp order. */
    var buffered: seq<RgbFrame>
    /** Every acquisition and release so far. */
    ghost var events: seq<DeviceEvent>
    /** Every strip and pixel buffer the renderer has acquired. */
    ghost var Repr: set<object>

    /**
     * The buffer is sorted, each strip's pixel buffer has its length, and
     * no two outputs share a strip or a pixel buffer.
     */
    ghost predicate Valid()
      reads this
    {
      && Sorted(buffered)
      && (forall k | k in neopixels :: neopixels[k].pixels.Length == neopixels[k].n)
      && DistinctStrips(neopixels)
      && (forall k | k in neopixels :: neopixels[k] in Repr && neopixels[k].pixels in Repr)
      && this !in Repr
    }

    /** The strips in use. */
    function Strips(): set<NeoPixel>
      reads this`neopixels
    {
      set k | k in neopixels :: neopixels[k]
    }

    /** The pixel buffers of the strips in use. */
    function Buffers(): set<array<Rgb>>
      reads this`neopixels
    {
      set k | k in neopixels :: neopixels[k].pixels
    }

    /** A renderer with no strip and an empty buffer. */
    constructor ()
      ensures Valid()
      ensures neopixels == map[] && buffered == [] && events == [] && Repr == {}
    {
      neopixels := map[];
      buffered := [];
      events := [];
      Repr := {};
    }

    /** `queue_empty`. */
    function QueueEmpty(): (r: bool)
      reads this
      ensures r <==> |buffered| == 0
    {
      buffered == []
    }

    /**
     * `queue_frame`: appends `frame` and sorts by timestamp, which on the
     * sorted buffer inserts it after every frame not later than it.
     */
    method QueueFrame(frame: RgbFrame)
      requires Valid()
      modifies this`buffered
      ensures Valid()
      ensures buffered == SortByTimestamp(old(buffered) + [frame])
      ensures buffered == Insert(old(buffered), frame)
      ensures ViewOf(neopixels) == old(ViewOf(neopixels))
    {
      QueueFrameInserts(buffered, frame);
      SortByTimestampSpec(buffered + [frame]);
      buffered := SortByTimestamp(buffered + [frame]);
    }

    /** `clear_buffer`: drops every buffered frame for output `pin`. */
    method ClearBuffer(pin: string)
      requires Valid()
      modifies this`buffered
      ensures Valid()
      ensures buffered == ClearPin(old(buffered), pin)
      ensures ViewOf(neopixels) == old(ViewOf(neopixels))
    {
      FilterSorted(buffered, {pin}, false);
      buffered := ClearPin(buffered, pin);
    }
  
    /**
     * `render_frame`: writes the frame's colours into the pixel buffer of its
     * output, as many as both the strip and the frame have, and flushes the
     * strip once. An output with no strip is the source's `KeyError`: the
     * result is `false` and nothing changes.
     */
    method RenderFrame(frame: RgbFrame) returns (ok: bool)
      requires Valid()
      modifies Strips()`shows, Buffers()
      ensures Valid()
      ensures ok <==> frame.pin in neopixels
      ensures ViewOf(neopixels) == if ok then old(ViewOf(neopixels))[frame.pin := Flushed(old(ViewOf(neopixels))[frame.pin], frame.rgbData)]
        else old(ViewOf(neopixels))
      ensures unchanged(Repr - (if frame.pin in neopixels then {neopixels[frame.pin] as object, neopixels[frame.pin].pixels} else {}))
    {
      if frame.pin !in neopixels {
        return false;
      }
      var np := neopixels[frame.pin];
      WritePixels(np.pixels, frame.rgbData);
      np.Show();
      ok := true;
    }
  
    /**
     * `update_config`: releases the strip registered under the
     * configuration's id, if there is one, then acquires a strip for the
     * configuration and registers it under that id. When the driver cannot
     * be acquired the old entry stays released and removed.
     */
    method UpdateConfig(config: Config.NeoPixelConfig) returns (ok: bool)
      requires Valid()
      modifies this, Repr
      ensures Valid()
      ensures fresh(Repr - old(Repr))
      ensures ok <==> Acquirable(config)
      ensures buffered == old(buffered)
      ensures config.id in old(neopixels) ==> !old(neopixels)[config.id].live
      ensures neopixels.Keys == if ok then old(neopixels).Keys + {config.id} else old(neopixels).Keys - {config.id}
      ensures forall k | k in neopixels && k != config.id :: neopixels[k] == old(neopixels)[k]
      ensures ok ==> var np := neopixels[config.id];
        && fresh(np) && np.live && np.n == config.leds && np.brightness == config.brightness
        && PinName(np.pin) == config.pin && np.pixels[..] == seq(config.leds, _ => Rgb(0, 0, 0)) && np.shows == 0
      ensures events == old(events) + (if config.id in old(neopixels) then [Released(config.id)] else [])
        + (if ok then [Acquired(config.id, config.pin)] else [])
      ensures unchanged(old(Repr) - (if config.id in old(neopixels) then {old(neopixels)[config.id] as object} else {}))
      ensures ok ==> ViewOf(neopixels) == old(ViewOf(neopixels))[config.id := Unlit(config.leds)]
    {
      Release(config.id);
      ghost var v := ViewOf(neopixels);
      var r := NeoPixelFromConfig(config);
      ok := r.Some?;
      if ok {
        assert ViewOf(neopixels) == v;
        assert StripView(r.value.pixels[..], r.value.shows) == Unlit(config.leds);
        Register(config.id, config.pin, r.value);
        Replaced(old(ViewOf(neopixels)), config.id, Unlit(config.leds));
      }
    }

    /** Enters a strip acquired for `pin` under the free output name `key`. */
    method Register(key: string, pin: string, np: NeoPixel)
      requires Valid() && key !in neopixels
      requires np !in Repr && np.pixels !in Repr && np.pixels.Length == np.n
      modifies this
      ensures Valid()
      ensures neopixels == old(neopixels)[key := np] && buffered == old(buffered)
      ensures events == old(events) + [Acquired(key, pin)] && Repr == old(Repr) + {np, np.pixels}
      ensures ViewOf(neopixels) == old(ViewOf(neopixels))[key := StripView(np.pixels[..], np.shows)]
    {
      ViewOfSet(neopixels, key, np);
      RegisterDistinct(neopixels, key, np);
      neopixels, events, Repr := neopixels[key := np], events + [Acquired(key, pin)], Repr + {np, np.pixels};
    }

    /** The release half of `update_config`: deinitialises and unregisters the strip under `key`, if any. */
    method Release(key: string)
      requires Valid()
      modifies this, Repr
      ensures Valid()
      ensures Repr == old(Repr) && buffered == old(buffered)
      ensures neopixels == old(neopixels) - {key}
      ensures key in old(neopixels) ==> !old(neopixels)[key].live
      ensures events == old(events) + (if key in old(neopixels) then [Released(key)] else [])
      ensures unchanged(old(Repr) - (if key in old(neopixels) then {old(neopixels)[key] as object} else {}))
      ensures ViewOf(neopixels) == old(ViewOf(neopixels)) - {key}
    {
      if key in neopixels {
        neopixels[key].Deinit();
        neopixels, events := neopixels - {key}, events + [Released(key)];
      }
    }
  
    /**
     * The first loop of `update_configs`: releases every registered strip,
     * then empties the registry. `released` is the order the keys were
     * visited in; each key is released once.
     */
    method ReleaseAll() returns (ghost released: seq<string>)
      requires Valid()
      modifies this, Repr
      ensures Valid()
      ensures neopixels == map[] && buffered == old(buffered) && Repr == old(Repr)
      ensures forall k | k in old(neopixels) :: !old(neopixels)[k].live
      ensures forall k :: k in released <==> k in old(neopixels)
      ensures |released| == |old(neopixels)|
      ensures events == old(events) + Releases(released)
    {
      released := ReleaseEach(neopixels);
      events := events + Releases(released);
      neopixels := map[];
    }

    /**
     * The second loop of `update_configs`: acquires a strip for each
     * configuration in order and registers it under the configuration's
     * pin, a later configuration replacing an earlier one for the same pin.
     * It stops at the first configuration the driver cannot be acquired for.
     */
    method AcquireAll(configs: seq<Config.NeoPixelConfig>) returns (ok: bool)
      requires Valid() && neopixels == map[]
      modifies this
      ensures Valid()
      ensures fresh(Repr - old(Repr))
      ensures buffered == old(buffered)
      ensures ok <==> forall t {:trigger Acquirable(configs[t])} | 0 <= t < |configs| :: Acquirable(configs[t])
      ensures ok ==> neopixels.Keys == Pins(configs)
      ensures ok ==> Registers(neopixels, configs)
      ensures ok ==> forall k | k in neopixels :: fresh(neopixels[k])
      ensures ok ==> events == old(events) + Acquisitions(configs)
      ensures |old(events)| <= |events| && events[..|old(events)|] == old(events)
    {
      var registry, acquired := AcquireEach(configs);
      ok := acquired == |configs|;
      if ok {
        assert configs[..acquired] == configs;
      }
      neopixels, events, Repr := registry, events + Acquisitions(configs[..acquired]), Repr + Footprint(registry);
    }

    /**
     * The purge loop of `update_configs`: walks the buffer and removes each
     * frame whose output has no strip.
     */
    method PurgeUnconfigured()
      requires Valid()
      modifies this
      ensures Valid()
      ensures buffered == KeepConfigured(old(buffered), neopixels.Keys)
      ensures neopixels == old(neopixels) && events == old(events) && Repr == old(Repr)
    {
      FilterSorted(buffered, neopixels.Keys, true);
      buffered := PurgeFrames(buffered, neopixels.Keys);
    }

    /**
     * `update_configs`: releases every strip before acquiring any, registers
     * one strip per configured pin, then drops the buffered frames of every
     * output that no longer has a strip. A configuration the driver cannot
     * be acquired for stops the update, as the driver's exception does.
     */
    method UpdateConfigs(configs: seq<Config.NeoPixelConfig>) returns (ok: bool, ghost released: seq<string>)
      requires Valid()
      modifies this, Repr
      ensures Valid()
      ensures fresh(Repr - old(Repr))
      ensures forall k | k in old(neopixels) :: !old(neopixels)[k].live
      ensures forall k :: k in released <==> k in old(neopixels)
      ensures |released| == |old(neopixels)|
      ensures ok <==> forall t {:trigger Acquirable(configs[t])} | 0 <= t < |configs| :: Acquirable(configs[t])
      ensures ok ==> neopixels.Keys == Pins(configs)
      ensures ok ==> Registers(neopixels, configs)
      ensures ok ==> forall k | k in neopixels :: fresh(neopixels[k])
      ensures ok ==> buffered == KeepConfigured(old(buffered), neopixels.Keys)
      ensures ok ==> events == old(events) + Releases(released) + Acquisitions(configs)
      ensures !ok ==> buffered == old(buffered)
      ensures |old(events)| + |released| <= |events|
      ensures events[..|old(events)| + |released|] == old(events) + Releases(released)
    {
      released := ReleaseAll();
      ok := AcquireAll(configs);
      if ok {
        PurgeUnconfigured();
      }
    }
  
    /**
     * The render loop of `render_queue`: renders each chosen frame in turn.
     * The frames are for distinct outputs, so each output's strip shows its
     * own frame. An output with no strip stops the loop, as the source's
     * `KeyError` does.
     */
    method RenderAll(frames: seq<RgbFrame>) returns (ok: bool)
      requires Valid() && OnePerPin(frames)
      modifies Strips()`shows, Buffers()
      ensures Valid()
      ensures ok <==> forall t | 0 <= t < |frames| :: frames[t].pin in neopixels
      ensures RenderedOver(old(ViewOf(neopixels)), frames, ok, ViewOf(neopixels))
    {
      ghost var v0 := ViewOf(neopixels);
      for t := 0 to |frames|
        invariant forall u | 0 <= u < t :: frames[u].pin in neopixels
        invariant ViewOf(neopixels) == PaintAll(v0, frames[..t])
      {
        assert frames[..t + 1][..t] == frames[..t];
        ok := RenderFrame(frames[t]);
        if !ok {
          PaintedPrefix(v0, frames, t);
          return;
        }
      }
      assert frames[..|frames|] == frames;
      PaintAllSpec(v0, frames);
      ok := true;
    }

    /**
     * `render_queue` at time `now` (milliseconds): renders, for each output,
     * the first buffered frame within tolerance, drops the stale frames, and
     * keeps every other frame in order.
     */
    method RenderQueue(now: int) returns (ok: bool)
      requires Valid()
      modifies this`buffered, Strips()`shows, Buffers()
      ensures Valid()
      ensures buffered == Remaining(old(buffered), now)
      ensures ok <==> forall f | f in ToRender(old(buffered), now) :: f.pin in neopixels
      ensures RenderedOver(old(ViewOf(neopixels)), ToRender(old(buffered), now), ok, ViewOf(neopixels))
    {
      var toRender, remaining := SelectFrames(buffered, now);
      AtMostOnePerPin(buffered, now, |buffered|);
      CollectSorted(buffered, now, Hold, |buffered|);
      ghost var v := ViewOf(neopixels);
      buffered := remaining;
      assert ViewOf(neopixels) == v;
      ok := RenderAll(toRender);
    }
  }
}
