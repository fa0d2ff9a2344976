/**
 * The LED thread: one iteration of its polling loop. Each iteration takes
 * at most one message from the queue, applies it to the renderer, and runs
 * a render pass whenever frames are buffered.
 */
module Scheduler {
  import opened Wrappers
  import opened RgbFrames
  import opened Playback
  import Config
  import Renderer

  /** The queue is polled this often (milliseconds) while there is work. */
  const FastPollMs: int := 10

  /** The queue is polled this often (milliseconds) while idle. */
  const SlowPollMs: int := 1000

  /**
   * A message taken from the queue, by the type the loop tells apart: a
   * configuration, a frame, an integer, a list of messages, or anything else.
   */
  datatype Message =
    | ConfigMsg(config: Config.NeoPixelConfig)
    | FrameMsg(frame: RgbFrame)
    | IntMsg(value: int)
    | ListMsg(items: seq<Message>)
    | OtherMsg

  /** An element a configuration list may hold: an integer or a configuration. */
  predicate IsConfigItem(m: Message) {
    m.IntMsg? || m.ConfigMsg?
  }

  /** `__is_config_list`: a list whose every element is an integer or a configuration. */
  function IsConfigList(m: Message): (r: bool)
    ensures r <==> m.ListMsg? && forall t | 0 <= t < |m.items| :: IsConfigItem(m.items[t])
    ensures m.ListMsg? && m.items == [] ==> r
  {
    m.ListMsg? && AllConfigItems(m.items)
  }

  /** Every element is an integer or a configuration, checked front to back as `all` does. */
  function AllConfigItems(items: seq<Message>): (r: bool)
    ensures r <==> forall t | 0 <= t < |items| :: IsConfigItem(items[t])
  {
    items == [] || (IsConfigItem(items[0]) && AllConfigItems(items[1..]))
  }

  /** The ids of the configurations in `items` that pass validation. */
  function ValidIds(items: seq<Message>): set<string> {
    if items == [] then {}
    else
      var last := items[|items| - 1];
      ValidIds(items[..|items| - 1]) + (if last.ConfigMsg? && Config.CheckValidity(last.config).valid then {last.config.id} else {})
  }

  /** An id is among `ValidIds(items)` exactly when a configuration of `items` with that id passes validation. */
  lemma {:induction false} ValidIdsSpec(items: seq<Message>, id: string)
    ensures id in ValidIds(items) <==>
      exists t | 0 <= t < |items| :: items[t].ConfigMsg? && Config.CheckValidity(items[t].config).valid
        && items[t].config.id == id
  {
    if items != [] {
      var init := items[..|items| - 1];
      ValidIdsSpec(init, id);
      assert forall t | 0 <= t < |init| :: init[t] == items[t];
    }
  }

  /** Extending a prefix of `items` by one element adds at most that element's id. */
  lemma ValidIdsStep(items: seq<Message>, t: nat)
    requires t < |items|
    ensures ValidIds(items[..t + 1]) == ValidIds(items[..t])
      + (if items[t].ConfigMsg? && Config.CheckValidity(items[t].config).valid then {items[t].config.id} else {})
  {
    assert items[..t + 1][..t] == items[..t];
  }

  /** The position of the first integer in `items`, or `|items|` when there is none. */
  function FirstInt(items: seq<Message>): (n: nat)
    ensures n <= |items|
    ensures forall t | 0 <= t < n :: !items[t].IntMsg?
    ensures n < |items| ==> items[n].IntMsg?
  {
    if items == [] || items[0].IntMsg? then 0
    else
      var n := 1 + FirstInt(items[1..]);
      assert forall t | 1 <= t < n :: items[t] == items[1..][t - 1];
      n
  }

  /** The last configuration of `items` with id `id` that passes validation, if any. */
  function LastValidFor(items: seq<Message>, id: string): Option<Config.NeoPixelConfig> {
    if items == [] then None
    else
      var last := items[|items| - 1];
      if last.ConfigMsg? && Config.CheckValidity(last.config).valid && last.config.id == id then Some(last.config)
      else LastValidFor(items[..|items| - 1], id)
  }

  /**
   * `LastValidFor` finds a configuration exactly when `id` is among the
   * valid ids, and the one it finds is valid, carries `id`, and no later
   * valid configuration carries `id`.
   */
  lemma {:induction false} LastValidForSpec(items: seq<Message>, id: string)
    ensures LastValidFor(items, id).Some? <==> id in ValidIds(items)
    ensures LastValidFor(items, id).Some? ==>
      && LastValidFor(items, id).value.id == id && Config.CheckValidity(LastValidFor(items, id).value).valid
      && exists t | 0 <= t < |items| ::
           && items[t] == ConfigMsg(LastValidFor(items, id).value)
           && forall u | t < u < |items| :: !(items[u].ConfigMsg? && Config.CheckValidity(items[u].config).valid && items[u].config.id == id)
  {
    if items != [] {
      var init := items[..|items| - 1];
      var last := items[|items| - 1];
      LastValidForSpec(init, id);
      assert forall t | 0 <= t < |init| :: init[t] == items[t];
      if last.ConfigMsg? && Config.CheckValidity(last.config).valid && last.config.id == id {
        assert items[|items| - 1] == ConfigMsg(last.config);
      }
    }
  }

  /** One element more: a valid configuration becomes the last for its id, and the other ids keep theirs. */
  lemma LastValidForStep(items: seq<Message>, t: nat)
    requires t < |items|
    ensures forall id ::
      LastValidFor(items[..t + 1], id) ==
        if items[t].ConfigMsg? && Config.CheckValidity(items[t].config).valid && items[t].config.id == id
        then Some(items[t].config) else LastValidFor(items[..t], id)
  {
    var p := items[..t + 1];
    assert p != [] && p[..|p| - 1] == items[..t] && p[|p| - 1] == items[t];
    forall id
      ensures LastValidFor(p, id) ==
        if items[t].ConfigMsg? && Config.CheckValidity(items[t].config).valid && items[t].config.id == id
        then Some(items[t].config) else LastValidFor(items[..t], id)
    {
    }
  }

  /** Every valid id of `items` has a strip, set up as the last valid configuration with that id asks. */
  ghost predicate Applied(registry: map<string, Renderer.NeoPixel>, items: seq<Message>)
    reads registry.Values`live
  {
    forall id | id in ValidIds(items) ::
      id in registry && LastValidFor(items, id).Some? && Renderer.Configured(registry[id], LastValidFor(items, id).value)
  }

  /**
   * Applying one element more: the strips of the other valid ids stay set
   * up as before, and a valid configuration sets up the strip for its id.
   */
  lemma AppliedStep(registry: map<string, Renderer.NeoPixel>, items: seq<Message>, t: nat)
    requires t < |items|
    requires forall id | id in ValidIds(items[..t]) && !(items[t].ConfigMsg? && Config.CheckValidity(items[t].config).valid && items[t].config.id == id) ::
      id in registry && LastValidFor(items[..t], id).Some? && Renderer.Configured(registry[id], LastValidFor(items[..t], id).value)
    requires items[t].ConfigMsg? && Config.CheckValidity(items[t].config).valid ==>
      items[t].config.id in registry && Renderer.Configured(registry[items[t].config.id], items[t].config)
    ensures Applied(registry, items[..t + 1])
  {
    ValidIdsStep(items, t);
    LastValidForStep(items, t);
  }

  /**
   * The buffer after `_handle_new_frame` (the render pass aside): the
   * frame's output cleared first when the frame asks for it, then the frame
   * queued unless its timestamp is 0.
   */
  function BufferAfterFrame(buf: seq<RgbFrame>, f: RgbFrame): seq<RgbFrame> {
    var cleared := if f.options.clearBuffer then ClearPin(buf, f.pin) else buf;
    if f.timestamp == 0 then cleared else Insert(cleared, f)
  }

  /**
   * A frame due at time 0 never enters the buffer, and any other frame
   * does; a frame that clears its output is afterwards the only buffered
   * frame for that output; the frames of other outputs are never touched.
   */
  lemma BufferAfterFrameSpec(buf: seq<RgbFrame>, f: RgbFrame, g: RgbFrame, q: string)
    requires Sorted(buf)
    ensures Sorted(BufferAfterFrame(buf, f))
    ensures f.timestamp == 0 ==> multiset(BufferAfterFrame(buf, f)) <= multiset(buf)
    ensures f.timestamp != 0 ==> f in BufferAfterFrame(buf, f)
    ensures f.timestamp != 0 ==> |BufferAfterFrame(buf, f)| == |if f.options.clearBuffer then ClearPin(buf, f.pin) else buf| + 1
    ensures f.options.clearBuffer && g in BufferAfterFrame(buf, f) && g.pin == f.pin ==> g == f
    ensures q != f.pin && g.pin == q ==> (g in BufferAfterFrame(buf, f) <==> g in buf)
  {
    var cleared := if f.options.clearBuffer then ClearPin(buf, f.pin) else buf;
    ClearPinSpec(buf, f.pin, q, g);
    InsertMultiset(cleared, f);
    if f.timestamp != 0 {
      InsertSorted(cleared, f);
      assert f in multiset(Insert(cleared, f));
      assert g in Insert(cleared, f) <==> g in multiset(Insert(cleared, f));
    } else if f.options.clearBuffer {
      FilterSubMultiset(buf, {f.pin}, false);
    }
  }

  /** The buffer after a message is handled, before the render pass. */
  function BufferAfterHandling(buf: seq<RgbFrame>, msg: Option<Message>): seq<RgbFrame> {
    if msg.Some? && msg.value.FrameMsg? then BufferAfterFrame(buf, msg.value.frame) else buf
  }

  /**
   * `_update_config`: a configuration that passes validation is handed to
   * the renderer; any other leaves the renderer as it is.
   */
  method UpdateConfig(renderer: Renderer.NeoPixelRenderer, config: Config.NeoPixelConfig)
    requires renderer.Valid()
    modifies renderer, renderer.Repr
    ensures renderer.Valid()
    ensures fresh(renderer.Repr - old(renderer.Repr))
    ensures renderer.buffered == old(renderer.buffered)
    ensures !Config.CheckValidity(config).valid ==>
      renderer.neopixels == old(renderer.neopixels) && renderer.events == old(renderer.events)
    ensures !Config.CheckValidity(config).valid ==> unchanged(renderer) && unchanged(old(renderer.Repr))
    ensures Config.CheckValidity(config).valid ==>
      && renderer.neopixels.Keys == old(renderer.neopixels).Keys + {config.id}
      && Renderer.Configured(renderer.neopixels[config.id], config)
      && fresh(renderer.neopixels[config.id])
    ensures Config.CheckValidity(config).valid && config.id in old(renderer.neopixels) ==>
      !old(renderer.neopixels)[config.id].live
    ensures Config.CheckValidity(config).valid ==>
      renderer.events == old(renderer.events)
        + (if config.id in old(renderer.neopixels) then [Renderer.Released(config.id)] else [])
        + [Renderer.Acquired(config.id, config.pin)]
    ensures forall k | k in renderer.neopixels && k != config.id :: renderer.neopixels[k] == old(renderer.neopixels)[k]
    ensures unchanged(old(renderer.Repr) - (if config.id in old(renderer.neopixels) then {old(renderer.neopixels)[config.id] as object} else {}))
    ensures Config.CheckValidity(config).valid ==>
      Renderer.ViewOf(renderer.neopixels) == old(Renderer.ViewOf(renderer.neopixels))[config.id := Renderer.Unlit(config.leds)]
    ensures forall k | k in renderer.neopixels && k in old(renderer.neopixels) && renderer.neopixels[k] == old(renderer.neopixels)[k] ::
      renderer.neopixels[k].live == old(renderer.neopixels[k].live)
  {
    var validation := Config.CheckValidity(config);
    if validation.valid {
      Renderer.ValidConfigAcquirable(config);
      var ok := renderer.UpdateConfig(config);
    }
  }

  /**
   * The configuration-list branch of the loop: applies each configuration
   * in order. An integer element is the source's failing `to_json` call:
   * the elements before it are applied and the loop fails.
   */
  method UpdateConfigList(renderer: Renderer.NeoPixelRenderer, items: seq<Message>) returns (fault: bool)
    requires renderer.Valid()
    requires forall t | 0 <= t < |items| :: IsConfigItem(items[t])
    modifies renderer, renderer.Repr
    ensures renderer.Valid()
    ensures fresh(renderer.Repr - old(renderer.Repr))
    ensures renderer.buffered == old(renderer.buffered)
    ensures fault <==> exists t | 0 <= t < |items| :: items[t].IntMsg?
    ensures fault <==> FirstInt(items) < |items|
    ensures !fault ==> renderer.neopixels.Keys == old(renderer.neopixels).Keys + ValidIds(items)
    ensures !fault ==> Applied(renderer.neopixels, items)
    ensures var applied := items[..FirstInt(items)];
      && renderer.neopixels.Keys == old(renderer.neopixels).Keys + ValidIds(applied)
      && Applied(renderer.neopixels, applied)
      && forall k | k in old(renderer.neopixels) && k !in ValidIds(applied) :: renderer.neopixels[k] == old(renderer.neopixels)[k]
    ensures var applied := items[..FirstInt(items)];
      && Retiring(renderer.neopixels, old(renderer.neopixels), old(renderer.Repr), ValidIds(applied))
      && unchanged(old(renderer.Repr) - ReleasedBy(old(renderer.neopixels), ValidIds(applied)))
    ensures forall k | k in old(renderer.neopixels) && k !in ValidIds(items[..FirstInt(items)]) ::
      k in Renderer.ViewOf(renderer.neopixels) && Renderer.ViewOf(renderer.neopixels)[k] == old(Renderer.ViewOf(renderer.neopixels))[k]
    ensures forall k | k in renderer.neopixels && k in old(renderer.neopixels) && renderer.neopixels[k] == old(renderer.neopixels)[k] ::
      renderer.neopixels[k].live == old(renderer.neopixels[k].live)
  {
    var t := ApplyUntilInt(renderer, items);
    ReleasedIsReleasedBy(old(renderer.neopixels), items[..t]);
    if t == |items| {
      assert items[..t] == items;
    }
    fault := t < |items|;
  }

  /**
   * The loop of `_update_config_list`: applies the entries in order up to the
   * first integer, and returns where it stopped.
   */
  method ApplyUntilInt(renderer: Renderer.NeoPixelRenderer, items: seq<Message>) returns (t: nat)
    requires renderer.Valid()
    requires forall t | 0 <= t < |items| :: IsConfigItem(items[t])
    modifies renderer, renderer.Repr
    ensures t == FirstInt(items)
    ensures renderer.Valid()
    ensures fresh(renderer.Repr - old(renderer.Repr))
    ensures renderer.buffered == old(renderer.buffered)
    ensures ListProgress(renderer.neopixels, old(renderer.neopixels), items[..t])
    ensures Retiring(renderer.neopixels, old(renderer.neopixels), old(renderer.Repr), ValidIds(items[..t]))
    ensures unchanged(old(renderer.Repr) - Released(old(renderer.neopixels), items[..t]))
  {
    assert items[..0] == [];
    t := 0;
    while t < |items| && !items[t].IntMsg?
      invariant t <= |items|
      invariant renderer.Valid()
      invariant fresh(renderer.Repr - old(renderer.Repr))
      invariant renderer.buffered == old(renderer.buffered)
      invariant t <= FirstInt(items)
      invariant ListProgress(renderer.neopixels, old(renderer.neopixels), items[..t])
      invariant Retiring(renderer.neopixels, old(renderer.neopixels), old(renderer.Repr), ValidIds(items[..t]))
      invariant unchanged(old(renderer.Repr) - Released(old(renderer.neopixels), items[..t]))
    {
      assert IsConfigItem(items[t]);
      ReleasedStep(old(renderer.neopixels), items, t);
      ApplyNext(renderer, items, t, old(renderer.neopixels), old(renderer.Repr));
      t := t + 1;
    }
    assert t == FirstInt(items);
  }

  /**
   * The registry while a configuration list is applied, from `start`: the
   * valid ids of `prefix` are added, each set up by its last valid
   * configuration, and every other entry stays as it was.
   */
  ghost predicate ListProgress(registry: map<string, Renderer.NeoPixel>, start: map<string, Renderer.NeoPixel>, prefix: seq<Message>)
    reads registry.Values`live
  {
    && registry.Keys == start.Keys + ValidIds(prefix)
    && Applied(registry, prefix)
    && forall k | k in start && k !in ValidIds(prefix) :: registry[k] == start[k]
  }

  /** The strips of `start` registered under one of `ids`: those a configuration list replaces. */
  ghost function ReleasedBy(start: map<string, Renderer.NeoPixel>, ids: set<string>): set<object> {
    set k | k in start && k in ids :: start[k] as object
  }

  /** The strip of `start` a configuration list entry releases, if any. */
  ghost function ReleasedAt(start: map<string, Renderer.NeoPixel>, m: Message): set<object> {
    if m.ConfigMsg? && Config.CheckValidity(m.config).valid && m.config.id in start then {start[m.config.id] as object} else {}
  }

  /** The strips of `start` released by the entries of `prefix`, entry by entry. */
  ghost function Released(start: map<string, Renderer.NeoPixel>, prefix: seq<Message>): set<object> {
    if prefix == [] then {}
    else Released(start, prefix[..|prefix| - 1]) + ReleasedAt(start, prefix[|prefix| - 1])
  }

  lemma ReleasedStep(start: map<string, Renderer.NeoPixel>, items: seq<Message>, t: nat)
    requires t < |items|
    ensures Released(start, items[..t + 1]) == Released(start, items[..t]) + ReleasedAt(start, items[t])
  {
    assert items[..t + 1][..t] == items[..t];
  }

  /** Releasing entry by entry releases exactly the strips of `start` under the ids the prefix applies. */
  lemma {:induction false} ReleasedIsReleasedBy(start: map<string, Renderer.NeoPixel>, prefix: seq<Message>)
    ensures Released(start, prefix) == ReleasedBy(start, ValidIds(prefix))
    decreases |prefix|
  {
    if prefix != [] {
      ReleasedIsReleasedBy(start, prefix[..|prefix| - 1]);
    }
  }

  /**
   * The strips a configuration list has replaced, from `start` whose objects
   * were `startObjs`: each applied id holds a strip that is not one of
   * `startObjs`, and each strip of `start` under an applied id is released.
   */
  ghost predicate Retiring(registry: map<string, Renderer.NeoPixel>, start: map<string, Renderer.NeoPixel>, startObjs: set<object>, ids: set<string>)
    reads start.Values`live
  {
    && (forall k | k in ids :: k in registry && registry[k] !in startObjs)
    && (forall k | k in start && k in ids :: !start[k].live)
  }

  /** One iteration of the configuration-list loop: `items[t]` is applied. */
  method ApplyNext(renderer: Renderer.NeoPixelRenderer, items: seq<Message>, t: nat, ghost start: map<string, Renderer.NeoPixel>, ghost startObjs: set<object>)
    requires renderer.Valid() && t < |items| && items[t].ConfigMsg?
    requires ListProgress(renderer.neopixels, start, items[..t])
    requires Retiring(renderer.neopixels, start, startObjs, ValidIds(items[..t])) && renderer !in startObjs
    modifies renderer, renderer.Repr
    ensures renderer.Valid()
    ensures fresh(renderer.Repr - old(renderer.Repr))
    ensures renderer.buffered == old(renderer.buffered)
    ensures ListProgress(renderer.neopixels, start, items[..t + 1])
    ensures Retiring(renderer.neopixels, start, startObjs, ValidIds(items[..t + 1]))
    ensures unchanged(startObjs - ReleasedAt(start, items[t]))
  {
    if Config.CheckValidity(items[t].config).valid {
      ApplyValid(renderer, items, t, start, startObjs);
    } else {
      ApplyInvalid(renderer, items, t, start, startObjs);
    }
  }

  /** `_update_config` for a valid configuration: the strip under its id is released and replaced. */
  method ReplaceStrip(renderer: Renderer.NeoPixelRenderer, config: Config.NeoPixelConfig)
    requires renderer.Valid() && Config.CheckValidity(config).valid
    modifies renderer, renderer.Repr
    ensures renderer.Valid()
    ensures fresh(renderer.Repr - old(renderer.Repr))
    ensures renderer.buffered == old(renderer.buffered)
    ensures renderer.neopixels.Keys == old(renderer.neopixels).Keys + {config.id}
    ensures forall k | k in renderer.neopixels && k != config.id :: renderer.neopixels[k] == old(renderer.neopixels)[k]
    ensures Renderer.Configured(renderer.neopixels[config.id], config) && fresh(renderer.neopixels[config.id])
    ensures config.id in old(renderer.neopixels) ==> !old(renderer.neopixels)[config.id].live
    ensures unchanged(old(renderer.Repr) - (if config.id in old(renderer.neopixels) then {old(renderer.neopixels)[config.id] as object} else {}))
  {
    UpdateConfig(renderer, config);
  }

  /**
   * `_update_config` for a valid configuration, inside a configuration list
   * started from `start` whose objects were `startObjs`, with the ids in
   * `done` already applied: the strip under the id is released and replaced
   * by a fresh one set up as configured, and no other object of `startObjs`
   * changes.
   */
  method ReplaceTracked(renderer: Renderer.NeoPixelRenderer, config: Config.NeoPixelConfig,
                        ghost start: map<string, Renderer.NeoPixel>, ghost startObjs: set<object>, ghost done: set<string>)
    requires renderer.Valid() && Config.CheckValidity(config).valid
    requires renderer.neopixels.Keys == start.Keys + done
    requires forall k | k in start && k !in done :: renderer.neopixels[k] == start[k]
    requires Retiring(renderer.neopixels, start, startObjs, done) && renderer !in startObjs
    modifies renderer, renderer.Repr
    ensures renderer.Valid()
    ensures fresh(renderer.Repr - old(renderer.Repr))
    ensures renderer.buffered == old(renderer.buffered)
    ensures renderer.neopixels.Keys == old(renderer.neopixels).Keys + {config.id}
    ensures forall k | k in renderer.neopixels && k != config.id :: renderer.neopixels[k] == old(renderer.neopixels)[k]
    ensures forall k | k in old(renderer.neopixels) && k != config.id :: renderer.neopixels[k].live == old(renderer.neopixels[k].live)
    ensures Renderer.Configured(renderer.neopixels[config.id], config)
    ensures Retiring(renderer.neopixels, start, startObjs, done + {config.id})
    ensures unchanged(startObjs - (if config.id in start then {start[config.id] as object} else {}))
  {
    ghost var before := renderer.neopixels;
    ghost var released := if config.id in before then {before[config.id] as object} else {};
    assert released !! startObjs || released == {start[config.id] as object} by {
      if config.id in before && config.id !in done {
        assert before[config.id] == start[config.id];
      }
    }
    ReplaceStrip(renderer, config);
    assert Retiring(renderer.neopixels, start, startObjs, done + {config.id}) by {
      forall k | k in done + {config.id}
        ensures k in renderer.neopixels && renderer.neopixels[k] !in startObjs
      {
        if k != config.id {
          assert renderer.neopixels[k] == before[k];
        }
      }
      forall k | k in start && k in done + {config.id}
        ensures !start[k].live
      {
        if k !in done {
          assert before[k] == start[k];
        } else if start[k] !in released {
          assert !old(start[k].live);
        }
      }
    }
  }

  /** `ApplyNext` for a configuration that passes validation. */
  method ApplyValid(renderer: Renderer.NeoPixelRenderer, items: seq<Message>, t: nat, ghost start: map<string, Renderer.NeoPixel>, ghost startObjs: set<object>)
    requires renderer.Valid() && t < |items| && items[t].ConfigMsg?
    requires Config.CheckValidity(items[t].config).valid
    requires ListProgress(renderer.neopixels, start, items[..t])
    requires Retiring(renderer.neopixels, start, startObjs, ValidIds(items[..t])) && renderer !in startObjs
    modifies renderer, renderer.Repr
    ensures renderer.Valid()
    ensures fresh(renderer.Repr - old(renderer.Repr))
    ensures renderer.buffered == old(renderer.buffered)
    ensures ListProgress(renderer.neopixels, start, items[..t + 1])
    ensures Retiring(renderer.neopixels, start, startObjs, ValidIds(items[..t + 1]))
    ensures unchanged(startObjs - ReleasedAt(start, items[t]))
  {
    var config := items[t].config;
    ValidIdsStep(items, t);
    ghost var before := renderer.neopixels;
    ReplaceTracked(renderer, config, start, startObjs, ValidIds(items[..t]));
    assert Applied(renderer.neopixels, items[..t + 1]) by {
      forall id | id in ValidIds(items[..t]) && id != config.id
        ensures id in renderer.neopixels && renderer.neopixels[id] == before[id]
        ensures Renderer.Configured(renderer.neopixels[id], LastValidFor(items[..t], id).value)
      {
      }
      AppliedStep(renderer.neopixels, items, t);
    }
    assert renderer.neopixels.Keys == start.Keys + ValidIds(items[..t + 1]) by {
      assert renderer.neopixels.Keys == before.Keys + {config.id};
    }
  }

  /** `ApplyNext` for a configuration that fails validation: nothing changes. */
  method ApplyInvalid(renderer: Renderer.NeoPixelRenderer, items: seq<Message>, t: nat, ghost start: map<string, Renderer.NeoPixel>, ghost startObjs: set<object>)
    requires renderer.Valid() && t < |items| && items[t].ConfigMsg?
    requires !Config.CheckValidity(items[t].config).valid
    requires ListProgress(renderer.neopixels, start, items[..t])
    requires Retiring(renderer.neopixels, start, startObjs, ValidIds(items[..t])) && renderer !in startObjs
    modifies renderer, renderer.Repr
    ensures renderer.Valid()
    ensures fresh(renderer.Repr - old(renderer.Repr))
    ensures renderer.buffered == old(renderer.buffered)
    ensures ListProgress(renderer.neopixels, start, items[..t + 1])
    ensures Retiring(renderer.neopixels, start, startObjs, ValidIds(items[..t + 1]))
    ensures unchanged(startObjs - ReleasedAt(start, items[t]))
  {
    ValidIdsStep(items, t);
    assert ValidIds(items[..t + 1]) == ValidIds(items[..t]);
    UpdateConfig(renderer, items[t].config);
    assert renderer.neopixels == old(renderer.neopixels);
    assert Applied(renderer.neopixels, items[..t]);
    AppliedStep(renderer.neopixels, items, t);
  }

  /**
   * `_handle_new_frame`: clears the frame's output first when the frame
   * asks for it, then renders a frame with timestamp 0 at once and queues
   * any other. Rendering for an output with no strip fails, as the
   * renderer's `KeyError` does.
   */
  method HandleNewFrame(renderer: Renderer.NeoPixelRenderer, frame: RgbFrame) returns (ok: bool)
    requires renderer.Valid()
    modifies renderer, renderer.Repr
    ensures renderer.Valid()
    ensures fresh(renderer.Repr - old(renderer.Repr))
    ensures renderer.buffered == BufferAfterFrame(old(renderer.buffered), frame)
    ensures renderer.neopixels == old(renderer.neopixels) && renderer.events == old(renderer.events)
    ensures ok <==> frame.timestamp != 0 || frame.pin in renderer.neopixels
    ensures Renderer.ViewOf(renderer.neopixels) == if frame.timestamp == 0 && ok
      then old(Renderer.ViewOf(renderer.neopixels))[frame.pin := Renderer.Flushed(old(Renderer.ViewOf(renderer.neopixels))[frame.pin], frame.rgbData)]
      else old(Renderer.ViewOf(renderer.neopixels))
    ensures frame.timestamp != 0 ==> unchanged(old(renderer.Repr))
    ensures frame.timestamp == 0 ==> unchanged(old(renderer.Repr) - (if frame.pin in old(renderer.neopixels)
      then {old(renderer.neopixels)[frame.pin] as object, old(renderer.neopixels)[frame.pin].pixels} else {}))
    ensures forall k | k in renderer.neopixels :: renderer.neopixels[k].live == old(renderer.neopixels[k].live)
  {
    ghost var v := Renderer.ViewOf(renderer.neopixels);
    if frame.options.clearBuffer {
      renderer.ClearBuffer(frame.pin);
    }
    assert Renderer.ViewOf(renderer.neopixels) == v;
    if frame.timestamp == 0 {
      ok := renderer.RenderFrame(frame);
    } else {
      renderer.QueueFrame(frame);
      ok := true;
    }
  }

  /** Reading a text attribute of a frame: only `pin` exists. */
  function FrameAttribute(frame: RgbFrame, name: string): Result<string, Renderer.Raised> {
    if name == "pin" then Success(frame.pin) else Failure(Renderer.AttributeError(name))
  }

  /**
   * The output `_handle_new_frame` as written clears before handling the
   * frame: none when the frame does not ask for it, and otherwise the
   * frame's `light_id`.
   */
  function ClearTargetAsWritten(frame: RgbFrame): Result<Option<string>, Renderer.Raised> {
    if !frame.options.clearBuffer then Success(None)
    else match FrameAttribute(frame, "light_id")
      case Failure(e) => Failure(e)
      case Success(id) => Success(Some(id))
  }

  /** As written, every frame that asks to clear its output raises before it is queued or rendered. */
  lemma ClearTargetAsWrittenRaises(frame: RgbFrame)
    ensures frame.options.clearBuffer <==> ClearTargetAsWritten(frame) == Failure(Renderer.AttributeError("light_id"))
  {
  }

  /**
   * The messages whose handling raises, given the outputs that have a
   * strip: a configuration list holding an integer, or a frame due at once
   * for an output with no strip.
   */
  predicate HandlingFaults(outputs: set<string>, msg: Option<Message>) {
    || (msg.Some? && IsConfigList(msg.value) && exists t | 0 <= t < |msg.value.items| :: msg.value.items[t].IntMsg?)
    || (msg.Some? && msg.value.FrameMsg? && msg.value.frame.timestamp == 0 && msg.value.frame.pin !in outputs)
  }

  /**
   * The registry `after` handling `msg`, from `before` (whose objects were
   * `beforeRepr`): a valid configuration sets up a strip under its id; a
   * configuration list applies its entries up to the first integer, the
   * last valid configuration for each id winning and every replaced strip
   * of `before` released; any other message leaves the registry as it was.
   */
  ghost predicate RegistryAfter(before: map<string, Renderer.NeoPixel>, beforeRepr: set<object>, msg: Option<Message>,
                                after: map<string, Renderer.NeoPixel>)
    reads after.Values`live, before.Values`live
  {
    if msg.Some? && msg.value.ConfigMsg? && Config.CheckValidity(msg.value.config).valid then
      var id := msg.value.config.id;
      && after.Keys == before.Keys + {id}
      && Renderer.Configured(after[id], msg.value.config)
      && forall k | k in after && k != id :: after[k] == before[k]
    else if msg.Some? && IsConfigList(msg.value) then
      var applied := msg.value.items[..FirstInt(msg.value.items)];
      && after.Keys == before.Keys + ValidIds(applied)
      && Applied(after, applied)
      && (forall k | k in before && k !in ValidIds(applied) :: after[k] == before[k])
      && Retiring(after, before, beforeRepr, ValidIds(applied))
    else
      after == before
  }

  /**
   * The strips released and acquired while handling a message that is not
   * a configuration list: a valid configuration releases the strip already
   * under its id, if any, and then acquires one; nothing else touches a
   * strip.
   */
  function HandlingEvents(outputs: set<string>, msg: Option<Message>): seq<Renderer.DeviceEvent> {
    if msg.Some? && msg.value.ConfigMsg? && Config.CheckValidity(msg.value.config).valid then
      var id := msg.value.config.id;
      (if id in outputs then [Renderer.Released(id)] else []) + [Renderer.Acquired(id, msg.value.config.pin)]
    else
      []
  }

  /** Which strips of `registry` are live, by output name. */
  ghost function LiveOf(registry: map<string, Renderer.NeoPixel>): map<string, bool>
    reads registry.Values`live
  {
    map k | k in registry :: registry[k].live
  }

  /**
   * Every entry of `after` that is still the strip `before` had under that
   * name is live exactly when it was, `live` being `LiveOf(before)` taken
   * before the change.
   */
  ghost predicate KeepsLiveness(before: map<string, Renderer.NeoPixel>, live: map<string, bool>, after: map<string, Renderer.NeoPixel>)
    reads after.Values`live
  {
    forall k | k in after && k in before && k in live && after[k] == before[k] :: after[k].live == live[k]
  }

  /**
   * What the strips show after handling `msg`, from `v`: a frame stamped 0
   * is painted over its strip, which is flushed; a valid configuration puts
   * an unlit strip under its id; a configuration list leaves every strip it
   * does not configure as it was; any other message changes nothing.
   */
  predicate HandledStrips(v: map<string, Renderer.StripView>, msg: Option<Message>, v': map<string, Renderer.StripView>) {
    if msg.Some? && msg.value.FrameMsg? && msg.value.frame.timestamp == 0 then
      var f := msg.value.frame;
      v' == if f.pin in v then v[f.pin := Renderer.Flushed(v[f.pin], f.rgbData)] else v
    else if msg.Some? && msg.value.ConfigMsg? && Config.CheckValidity(msg.value.config).valid then
      v' == v[msg.value.config.id := Renderer.Unlit(msg.value.config.leds)]
    else if msg.Some? && IsConfigList(msg.value) then
      var ids := ValidIds(msg.value.items[..FirstInt(msg.value.items)]);
      forall k | k in v && k !in ids :: k in v' && v'[k] == v[k]
    else
      v' == v
  }

  /**
   * The dispatch part of one iteration: a configuration is applied, a list
   * of configurations is applied element by element, a frame is handled,
   * and any other message (or none) is ignored. `fault` is an exception
   * that would end the source's thread: an integer in a configuration
   * list, or a frame due at once for an output with no strip.
   */
  method HandleMessage(renderer: Renderer.NeoPixelRenderer, msg: Option<Message>) returns (fault: bool)
    requires renderer.Valid()
    modifies renderer, renderer.Repr
    ensures renderer.Valid()
    ensures fresh(renderer.Repr - old(renderer.Repr))
    ensures fault <==> HandlingFaults(old(renderer.neopixels).Keys, msg)
    ensures !fault ==> renderer.buffered == BufferAfterHandling(old(renderer.buffered), msg)
    ensures msg.None? || msg.value.OtherMsg? || msg.value.FrameMsg? || msg.value.IntMsg? || (msg.value.ListMsg? && !IsConfigList(msg.value)) ==>
      renderer.neopixels == old(renderer.neopixels) && renderer.events == old(renderer.events)
    ensures (|| msg.None? || msg.value.OtherMsg? || msg.value.IntMsg? || (msg.value.ListMsg? && !IsConfigList(msg.value))
             || (msg.value.ConfigMsg? && !Config.CheckValidity(msg.value.config).valid))
      ==> unchanged(renderer) && unchanged(old(renderer.Repr))
    ensures msg.Some? && msg.value.FrameMsg? && msg.value.frame.timestamp != 0 ==> unchanged(old(renderer.Repr))
    ensures msg.Some? && msg.value.FrameMsg? && msg.value.frame.timestamp == 0 ==>
      var pin := msg.value.frame.pin;
      unchanged(old(renderer.Repr) - (if pin in old(renderer.neopixels)
        then {old(renderer.neopixels)[pin] as object, old(renderer.neopixels)[pin].pixels} else {}))
    ensures msg.Some? && msg.value.ConfigMsg? && Config.CheckValidity(msg.value.config).valid ==>
      var id := msg.value.config.id;
      unchanged(old(renderer.Repr) - (if id in old(renderer.neopixels) then {old(renderer.neopixels)[id] as object} else {}))
    ensures msg.Some? && IsConfigList(msg.value) ==>
      unchanged(old(renderer.Repr) - ReleasedBy(old(renderer.neopixels), ValidIds(msg.value.items[..FirstInt(msg.value.items)])))
    ensures RegistryAfter(old(renderer.neopixels), old(renderer.Repr), msg, renderer.neopixels)
    ensures HandledStrips(old(Renderer.ViewOf(renderer.neopixels)), msg, Renderer.ViewOf(renderer.neopixels))
    ensures forall k | k in renderer.neopixels && k in old(renderer.neopixels) && renderer.neopixels[k] == old(renderer.neopixels)[k] ::
      renderer.neopixels[k].live == old(renderer.neopixels[k].live)
    ensures !(msg.Some? && IsConfigList(msg.value)) ==>
      renderer.events == old(renderer.events) + HandlingEvents(old(renderer.neopixels).Keys, msg)
  {
    fault := false;
    if msg.Some? && msg.value.ConfigMsg? {
      UpdateConfig(renderer, msg.value.config);
    } else if msg.Some? && IsConfigList(msg.value) {
      fault := UpdateConfigList(renderer, msg.value.items);
    } else if msg.Some? && msg.value.FrameMsg? {
      var ok := HandleNewFrame(renderer, msg.value.frame);
      fault := !ok;
    }
  }

  /** `HandleMessage` as one iteration of the loop sees it: what becomes of the buffer, the registry and the strips. */
  method Dispatch(renderer: Renderer.NeoPixelRenderer, msg: Option<Message>) returns (fault: bool)
    requires renderer.Valid()
    modifies renderer, renderer.Repr
    ensures renderer.Valid() && fresh(renderer.Repr - old(renderer.Repr))
    ensures fault <==> HandlingFaults(old(renderer.neopixels).Keys, msg)
    ensures !fault ==> renderer.buffered == BufferAfterHandling(old(renderer.buffered), msg)
    ensures RegistryAfter(old(renderer.neopixels), old(renderer.Repr), msg, renderer.neopixels)
    ensures HandledStrips(old(Renderer.ViewOf(renderer.neopixels)), msg, Renderer.ViewOf(renderer.neopixels))
    ensures KeepsLiveness(old(renderer.neopixels), old(LiveOf(renderer.neopixels)), renderer.neopixels)
    ensures !(msg.Some? && IsConfigList(msg.value)) ==>
      renderer.events == old(renderer.events) + HandlingEvents(old(renderer.neopixels).Keys, msg)
  {
    fault := HandleMessage(renderer, msg);
  }

  /**
   * The render pass of an iteration: the renderer's `render_queue`. It
   * releases and acquires nothing, so whether the registry is as handling
   * `msg` left it (`RegistryAfter`) is the same before and after it.
   */
  method RenderPass(renderer: Renderer.NeoPixelRenderer, now: int,
                    ghost before: map<string, Renderer.NeoPixel>, ghost beforeRepr: set<object>, ghost msg: Option<Message>,
                    ghost beforeLive: map<string, bool>)
    returns (ok: bool)
    requires renderer.Valid()
    modifies renderer`buffered, renderer.Strips()`shows, renderer.Buffers()
    ensures renderer.Valid()
    ensures RegistryAfter(before, beforeRepr, msg, renderer.neopixels) <==> old(RegistryAfter(before, beforeRepr, msg, renderer.neopixels))
    ensures KeepsLiveness(before, beforeLive, renderer.neopixels) <==> old(KeepsLiveness(before, beforeLive, renderer.neopixels))
    ensures renderer.buffered == Remaining(old(renderer.buffered), now)
    ensures ok <==> forall f | f in ToRender(old(renderer.buffered), now) :: f.pin in renderer.neopixels
    ensures Renderer.RenderedOver(old(Renderer.ViewOf(renderer.neopixels)), ToRender(old(renderer.buffered), now), ok,
                                  Renderer.ViewOf(renderer.neopixels))
  {
    ok := renderer.RenderQueue(now);
  }

  /** The loop starts busy: the first poll uses the fast timeout. */
  const StartsIdle: bool := false

  /** How long the next poll of the queue waits, in milliseconds, given the loop's `idle` flag. */
  function PollTimeoutMs(idle: bool): (ms: int)
    ensures ms == SlowPollMs <==> idle
    ensures ms == FastPollMs <==> !idle
  {
    if idle then SlowPollMs else FastPollMs
  }

  /**
   * One iteration of the loop at time `now` (milliseconds), with the
   * message the poll returned (`None` when it timed out) and the loop's
   * `idle` flag. The message is applied; unless that failed, the flag
   * becomes true exactly when no message came and nothing is buffered, and
   * a render pass runs exactly when something is buffered. `fault` is an
   * exception that would end the source's thread; `rendered` tells whether
   * the render pass ran; `mid` records what every strip shows between
   * handling the message and the render pass.
   */
  method Step(renderer: Renderer.NeoPixelRenderer, idle: bool, msg: Option<Message>, now: int)
    returns (fault: bool, rendered: bool, nextIdle: bool, ghost mid: map<string, Renderer.StripView>)
    requires renderer.Valid()
    modifies renderer, renderer.Repr
    ensures renderer.Valid()
    ensures fresh(renderer.Repr - old(renderer.Repr))
    ensures msg.Some? && IsConfigList(msg.value) && (exists t | 0 <= t < |msg.value.items| :: msg.value.items[t].IntMsg?)
      ==> fault && !rendered
    ensures msg.Some? && msg.value.FrameMsg? && msg.value.frame.timestamp == 0 && msg.value.frame.pin !in old(renderer.neopixels)
      ==> fault && !rendered
    ensures !fault || rendered ==>
      var handled := BufferAfterHandling(old(renderer.buffered), msg);
      && (rendered <==> handled != [])
      && nextIdle == (msg.None? && handled == [])
      && renderer.buffered == Remaining(handled, now)
    ensures fault && !rendered ==> nextIdle == idle
    ensures rendered ==> (fault <==>
      exists f | f in ToRender(BufferAfterHandling(old(renderer.buffered), msg), now) :: f.pin !in renderer.neopixels)
    ensures fault && !rendered <==> HandlingFaults(old(renderer.neopixels).Keys, msg)
    ensures msg.None? ==> !fault || rendered
    ensures msg.None? ==> (nextIdle <==> old(renderer.buffered) == [])
    ensures RegistryAfter(old(renderer.neopixels), old(renderer.Repr), msg, renderer.neopixels)
    ensures HandledStrips(old(Renderer.ViewOf(renderer.neopixels)), msg, mid)
    ensures Renderer.RenderedOver(mid, if rendered then ToRender(BufferAfterHandling(old(renderer.buffered), msg), now) else [],
                                  !fault, Renderer.ViewOf(renderer.neopixels))
    ensures KeepsLiveness(old(renderer.neopixels), old(LiveOf(renderer.neopixels)), renderer.neopixels)
    ensures !(msg.Some? && IsConfigList(msg.value)) ==>
      renderer.events == old(renderer.events) + HandlingEvents(old(renderer.neopixels).Keys, msg)
  {
    rendered, nextIdle := false, idle;
    fault := Dispatch(renderer, msg);
    mid := Renderer.ViewOf(renderer.neopixels);
    if fault {
      return;
    }
    nextIdle := renderer.QueueEmpty() && msg.None?;
    if !renderer.QueueEmpty() {
      rendered := true;
      var ok := RenderPass(renderer, now, old(renderer.neopixels), old(renderer.Repr), msg, old(LiveOf(renderer.neopixels)));
      fault := !ok;
    }
  }
}
