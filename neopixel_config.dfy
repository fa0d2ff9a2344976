/**
 * The configuration of one LED strip, its validation and its construction
 * from a decoded JSON object.
 */
module Config {
  import opened Wrappers
  import opened Validation

  /** A strip: its server-assigned id, its data pin, its length and its brightness percent. */
  datatype NeoPixelConfig = NeoPixelConfig(id: string, pin: string, leds: int, brightness: int)

  /** The data pins a strip may be attached to. */
  const SupportedPins: set<string> := {"D10", "D12", "D18", "D21"}

  /** The characters Python's `str.isspace` and `str.strip` treat as whitespace. */
  predicate IsWhitespace(c: char) {
    || c == ' ' || ('\t' <= c <= '\r') || ('\U{1C}' <= c <= '\U{1F}')
    || c == '\U{85}' || c == '\U{A0}' || c == '\U{1680}' || ('\U{2000}' <= c <= '\U{200A}')
    || c == '\U{2028}' || c == '\U{2029}' || c == '\U{202F}' || c == '\U{205F}' || c == '\U{3000}'
  }

  /** True of the empty string and of strings made only of whitespace. */
  predicate IsBlank(s: string) {
    s == [] || (IsWhitespace(s[0]) && IsBlank(s[1..]))
  }

  /** A string is blank exactly when each of its characters is whitespace. */
  lemma {:induction false} BlankEverywhere(s: string)
    ensures IsBlank(s) <==> forall i | 0 <= i < |s| :: IsWhitespace(s[i])
  {
    if s != [] {
      BlankEverywhere(s[1..]);
      assert forall i | 1 <= i < |s| :: s[i] == s[1..][i - 1];
    }
  }

  const BlankIdReason: string := "LED strip id must be non-blank"

  function TooFewLedsReason(id: string): string {
    "LED strip " + id + " must have more than 0 LEDs."
  }

  function BrightnessReason(id: string): string {
    "LED strip " + id + " must have a brightness value between 0 and 100."
  }

  function PinReason(id: string): string {
    "LED strip " + id + " must be assined to pin D10, D12, D18 or D21"
  }

  /**
   * The ordered chain of checks: id, then leds, then brightness, then pin.
   * The result is valid exactly when all four pass, and then (and only then)
   * its reason is empty.
   */
  function CheckValidity(c: NeoPixelConfig): (r: ValidationResult)
    ensures r.valid <==> !IsBlank(c.id) && c.leds >= 1 && 0 <= c.brightness <= 100 && c.pin in SupportedPins
    ensures r.valid <==> r.reason == ""
  {
    if IsBlank(c.id) then ValidationResult(false, BlankIdReason)
    else if c.leds < 1 then ValidationResult(false, TooFewLedsReason(c.id))
    else if c.brightness < 0 || c.brightness > 100 then ValidationResult(false, BrightnessReason(c.id))
    else if c.pin !in SupportedPins then ValidationResult(false, PinReason(c.id))
    else ValidationResult(true, "")
  }

  /**
   * The checks run in order and the first failure decides the result: once a
   * check fails, the fields examined by later checks cannot change it.
   */
  lemma FirstFailureDecides(c: NeoPixelConfig, d: NeoPixelConfig)
    requires c.id == d.id
    ensures IsBlank(c.id) ==> CheckValidity(c) == CheckValidity(d) == ValidationResult(false, BlankIdReason)
    ensures !IsBlank(c.id) && c.leds < 1 && c.leds == d.leds ==> CheckValidity(c) == CheckValidity(d)
    ensures !IsBlank(c.id) && c.leds >= 1 && !(0 <= c.brightness <= 100) && d.leds >= 1 && c.brightness == d.brightness
      ==> CheckValidity(c) == CheckValidity(d)
  {
  }

  /** The reason a rejected config carries names the first check it fails. */
  lemma RejectionReasons(c: NeoPixelConfig)
    ensures IsBlank(c.id) ==> CheckValidity(c).reason == BlankIdReason
    ensures !IsBlank(c.id) && c.leds < 1 ==> CheckValidity(c).reason == TooFewLedsReason(c.id)
    ensures !IsBlank(c.id) && c.leds >= 1 && !(0 <= c.brightness <= 100) ==>
      CheckValidity(c).reason == BrightnessReason(c.id)
    ensures !IsBlank(c.id) && c.leds >= 1 && 0 <= c.brightness <= 100 && c.pin !in SupportedPins ==>
      CheckValidity(c).reason == PinReason(c.id)
  {
  }

  /** Boundary cases: zero LEDs, brightness 101 and an unknown pin are rejected; 0 and 100 are accepted. */
  lemma ValidationBoundaries(id: string, pin: string)
    requires !IsBlank(id) && pin in SupportedPins
    ensures !CheckValidity(NeoPixelConfig(id, pin, 0, 50)).valid
    ensures !CheckValidity(NeoPixelConfig(id, pin, 30, 101)).valid
    ensures !CheckValidity(NeoPixelConfig(id, pin, 30, -1)).valid
    ensures CheckValidity(NeoPixelConfig(id, pin, 1, 0)).valid
    ensures CheckValidity(NeoPixelConfig(id, pin, 1, 100)).valid
    ensures !CheckValidity(NeoPixelConfig(id, "D11", 30, 50)).valid
  {
  }

  /**
   * Python's `str.strip()`: removes the whitespace at both ends of `s`. The
   * result neither starts nor ends with whitespace, it is empty exactly when
   * `s` is blank, and it is never longer than `s`.
   */
  function Strip(s: string): (r: string)
    ensures |r| <= |s|
    ensures r != [] ==> !IsWhitespace(r[0]) && !IsWhitespace(r[|r| - 1])
    ensures r == [] <==> IsBlank(s)
  {
    if s == [] then []
    else if IsWhitespace(s[0]) then Strip(s[1..])
    else if IsWhitespace(s[|s| - 1]) then
      assert s[..|s| - 1][0] == s[0];
      Strip(s[..|s| - 1])
    else s
  }

  /** A string without whitespace at either end is left as it is, so stripping twice is stripping once. */
  lemma StripIdempotent(s: string)
    ensures s != [] && !IsWhitespace(s[0]) && !IsWhitespace(s[|s| - 1]) ==> Strip(s) == s
    ensures Strip(Strip(s)) == Strip(s)
  {
  }

  /** The whitespace-only ends of `s[1..]`, seen from `s`, when `s[0]` is whitespace. */
  lemma TrimFront(s: string, t: string, i: nat, k: nat)
    requires s != [] && IsWhitespace(s[0]) && t == s[1..] && i <= k <= |t|
    requires forall j | 0 <= j < i :: IsWhitespace(t[j])
    requires forall j | k <= j < |t| :: IsWhitespace(t[j])
    ensures t[i..k] == s[i + 1..k + 1]
    ensures forall j | 0 <= j < i + 1 :: IsWhitespace(s[j])
    ensures forall j | k + 1 <= j < |s| :: IsWhitespace(s[j])
  {
    assert forall j | 1 <= j < |s| :: s[j] == t[j - 1];
  }

  /** The whitespace-only ends of `s[..|s| - 1]`, seen from `s`, when `s`'s last character is whitespace. */
  lemma TrimBack(s: string, t: string, i: nat, k: nat)
    requires s != [] && IsWhitespace(s[|s| - 1]) && t == s[..|s| - 1] && i <= k <= |t|
    requires forall j | 0 <= j < i :: IsWhitespace(t[j])
    requires forall j | k <= j < |t| :: IsWhitespace(t[j])
    ensures t[i..k] == s[i..k]
    ensures forall j | 0 <= j < i :: IsWhitespace(s[j])
    ensures forall j | k <= j < |s| :: IsWhitespace(s[j])
  {
  }

  /**
   * Where `Strip(s)` sits in `s`: it is `s[i..k]`, and every character
   * before `i` or from `k` on is whitespace.
   */
  lemma {:induction false} StripBounds(s: string) returns (i: nat, k: nat)
    ensures i <= k <= |s| && Strip(s) == s[i..k]
    ensures forall j | 0 <= j < i :: IsWhitespace(s[j])
    ensures forall j | k <= j < |s| :: IsWhitespace(s[j])
  {
    if s == [] {
      i, k := 0, 0;
    } else if IsWhitespace(s[0]) {
      var i', k' := StripBounds(s[1..]);
      TrimFront(s, s[1..], i', k');
      i, k := i' + 1, k' + 1;
    } else if IsWhitespace(s[|s| - 1]) {
      i, k := StripBounds(s[..|s| - 1]);
      TrimBack(s, s[..|s| - 1], i, k);
    } else {
      i, k := 0, |s|;
    }
  }

  /**
   * `Strip(s)` is a middle piece of `s`: what it cuts off at either end is
   * blank.
   */
  lemma StripTrims(s: string)
    ensures exists i, k | 0 <= i <= k <= |s| :: Strip(s) == s[i..k] && IsBlank(s[..i]) && IsBlank(s[k..])
  {
    var i, k := StripBounds(s);
    BlankEverywhere(s[..i]);
    BlankEverywhere(s[k..]);
    assert Strip(s) == s[i..k] && IsBlank(s[..i]) && IsBlank(s[k..]);
  }

  /** The JSON object a config is read from; a missing key is `None`. */
  datatype ConfigJson = ConfigJson(id: Option<string>, pin: Option<string>, leds: Option<int>, brightness: Option<int>)

  /**
   * `from_json`: strips id and pin, and defaults a missing id or pin to the
   * empty string and missing leds or brightness to 0.
   */
  function FromJson(j: ConfigJson): (c: NeoPixelConfig)
    ensures c.id == [] <==> j.id.None? || IsBlank(j.id.value)
    ensures c.pin == [] <==> j.pin.None? || IsBlank(j.pin.value)
    ensures j.id.Some? ==> c.id == Strip(j.id.value)
    ensures j.pin.Some? ==> c.pin == Strip(j.pin.value)
    ensures j.leds.Some? ==> c.leds == j.leds.value
    ensures j.leds.None? ==> c.leds == 0
    ensures j.brightness.Some? ==> c.brightness == j.brightness.value
    ensures j.brightness.None? ==> c.brightness == 0
  {
    var id := Strip(j.id.GetOr(""));
    var pin := Strip(j.pin.GetOr(""));
    NeoPixelConfig(id, pin, j.leds.GetOr(0), j.brightness.GetOr(0))
  }

  /**
   * Which JSON objects yield a valid config: a present, non-blank id; a
   * present leds of at least 1; a brightness in [0, 100] or none (it then
   * defaults to 0); and a pin that, once stripped, is a supported one.
   */
  lemma FromJsonValidity(j: ConfigJson)
    ensures CheckValidity(FromJson(j)).valid <==>
      && j.id.Some? && !IsBlank(j.id.value)
      && j.leds.Some? && j.leds.value >= 1
      && (j.brightness.None? || 0 <= j.brightness.value <= 100)
      && j.pin.Some? && Strip(j.pin.value) in SupportedPins
  {
    var c := FromJson(j);
    var idOk := j.id.Some? && !IsBlank(j.id.value);
    var pinOk := j.pin.Some? && Strip(j.pin.value) in SupportedPins;
    assert !IsBlank(c.id) <==> idOk by {
      if c.id != [] { assert !IsWhitespace(c.id[0]); }
    }
    assert c.pin in SupportedPins <==> pinOk by {
      if j.pin.None? { assert c.pin == []; }
    }
  }

  /** An empty JSON object never yields a valid config. */
  lemma EmptyJsonInvalid()
    ensures !CheckValidity(FromJson(ConfigJson(None, None, None, None))).valid
  {
    FromJsonValidity(ConfigJson(None, None, None, None));
  }
}
