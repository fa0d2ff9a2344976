/**
 * The binary color-frame message received on the WebSocket, and the list
 * serialisation used when the configurations are served as JSON.
 *
 * Message layout (integers little-endian):
 *   byte 0        options; bit 0 is `clear_buffer`, the other bits are ignored
 *   bytes 1..4    unused (they once held the pin)
 *   bytes 5..12   unsigned 64-bit timestamp in milliseconds
 *   bytes 13..    zero or more (r, g, b) groups of three bytes
 */
module Codec {
  import opened Wrappers
  import opened RgbFrames

  newtype byte = x: int | 0 <= x < 256

  /** A WebSocket message: binary (`bytes`) or text. */
  datatype WsMessage = Binary(data: seq<byte>) | Text(text: string)

  /**
   * Why no frame was produced. `EmptyMessage` and `PartialSample` are the
   * index errors the decoder raises; `UnsupportedMessageType` is a text message.
   */
  datatype DecodeError = EmptyMessage | PartialSample | UnsupportedMessageType

  /** Where the color groups start. */
  const HeaderLength: nat := 13

  /** The output every decoded frame is addressed to. */
  const DecodedOutputId: string := "test"

  /** Python's `m[lo:hi]` for `0 <= lo <= hi`: the bounds are clamped to `|m|`. */
  function Slice(m: seq<byte>, lo: nat, hi: nat): (r: seq<byte>)
    requires lo <= hi
    ensures |r| == (if hi <= |m| then hi - lo else if lo <= |m| then |m| - lo else 0)
    ensures forall k | 0 <= k < |r| :: r[k] == m[lo + k]
  {
    if |m| <= lo then [] else m[lo..if hi < |m| then hi else |m|]
  }

  /** 256 to the power `n`. */
  function Pow256(n: nat): (p: nat)
    ensures p >= 1
  {
    if n == 0 then 1 else 256 * Pow256(n - 1)
  }

  /** `int.from_bytes(s, "little")`: the unsigned value of `s`, least significant byte first. */
  function LittleEndian(s: seq<byte>): nat {
    if s == [] then 0 else s[0] as nat + 256 * LittleEndian(s[1..])
  }

  /** The `n`-byte little-endian encoding of `t` (the low `n` bytes when `t` is larger). */
  function ToLittleEndian(t: nat, n: nat): (s: seq<byte>)
    ensures |s| == n
  {
    if n == 0 then [] else [(t % 256) as byte] + ToLittleEndian(t / 256, n - 1)
  }

  /** An `n`-byte little-endian value is below `256^n`. */
  lemma {:induction false} LittleEndianBound(s: seq<byte>)
    ensures LittleEndian(s) < Pow256(|s|)
  {
    if s != [] {
      LittleEndianBound(s[1..]);
    }
  }

  /** Encoding then decoding an integer that fits in `n` bytes gives it back. */
  lemma {:induction false} LittleEndianRoundTrip(t: nat, n: nat)
    requires t < Pow256(n)
    ensures LittleEndian(ToLittleEndian(t, n)) == t
  {
    if n > 0 {
      LittleEndianRoundTrip(t / 256, n - 1);
      var s := ToLittleEndian(t, n);
      assert s[1..] == ToLittleEndian(t / 256, n - 1);
    }
  }

  /** Decoding then encoding `n` bytes gives them back. */
  lemma {:induction false} ToLittleEndianRoundTrip(s: seq<byte>)
    ensures ToLittleEndian(LittleEndian(s), |s|) == s
  {
    if s != [] {
      var t := LittleEndian(s);
      assert t % 256 == s[0] as int && t / 256 == LittleEndian(s[1..]);
      ToLittleEndianRoundTrip(s[1..]);
    }
  }

  /** The `k`-th color group of a message. */
  function SampleAt(m: seq<byte>, k: nat): Rgb
    requires HeaderLength + 3 * k + 2 < |m|
  {
    Rgb(m[HeaderLength + 3 * k] as int, m[HeaderLength + 3 * k + 1] as int, m[HeaderLength + 3 * k + 2] as int)
  }

  /** A message the decoder accepts: not empty, and no partial color group after the header. */
  predicate WellFormed(m: seq<byte>) {
    |m| > 0 && (|m| <= HeaderLength || (|m| - HeaderLength) % 3 == 0)
  }

  /** The number of color groups of a message. */
  function SampleCount(m: seq<byte>): nat {
    if |m| <= HeaderLength then 0 else (|m| - HeaderLength) / 3
  }

  /**
   * What decoding a binary message yields: the frame for `DecodedOutputId`
   * with the options of byte 0, the timestamp of bytes 5..12 and every color
   * group, or the error the decoder raises.
   */
  function Decode(m: seq<byte>): (r: Result<RgbFrame, DecodeError>)
    ensures r.Success? <==> WellFormed(m)
    ensures r.Failure? ==> (r.error == EmptyMessage <==> |m| == 0) && r.error != UnsupportedMessageType
    ensures r.Success? ==> |r.value.rgbData| == SampleCount(m) && r.value.pin == DecodedOutputId
  {
    if |m| == 0 then Failure(EmptyMessage)
    else if !WellFormed(m) then Failure(PartialSample)
    else
      var samples := seq(SampleCount(m), k requires 0 <= k < SampleCount(m) => SampleAt(m, k));
      Success(RgbFrame(DecodedOutputId, LittleEndian(Slice(m, 5, 13)), RgbFrameOptions(m[0] % 2 == 1), samples))
  }

  /**
   * The decoder of the WebSocket handler: reads the options and the
   * timestamp, then collects color groups with a cursor that advances by
   * three until it reaches the end of the message.
   */
  method DecodeMessage(m: seq<byte>) returns (r: Result<RgbFrame, DecodeError>)
    ensures r == Decode(m)
  {
    if |m| == 0 {
      return Failure(EmptyMessage);
    }
    var optionsByte := m[0];
    var options := RgbFrameOptions(optionsByte % 2 == 1);
    var timestamp := LittleEndian(Slice(m, 5, 13));
    var i := HeaderLength;
    var colorData: seq<Rgb> := [];
    while i < |m|
      invariant HeaderLength <= i && (i - HeaderLength) % 3 == 0
      invariant i <= |m| || i == HeaderLength
      invariant |colorData| == (i - HeaderLength) / 3
      invariant forall k | 0 <= k < |colorData| :: HeaderLength + 3 * k + 2 < |m| && colorData[k] == SampleAt(m, k)
      decreases |m| - i
    {
      if i + 2 >= |m| {
        assert (|m| - HeaderLength) % 3 != 0;
        return Failure(PartialSample);
      }
      colorData := colorData + [Rgb(m[i] as int, m[i + 1] as int, m[i + 2] as int)];
      i := i + 3;
    }
    assert WellFormed(m) && |colorData| == SampleCount(m);
    assert colorData == seq(SampleCount(m), k requires 0 <= k < SampleCount(m) => SampleAt(m, k));
    r := Success(RgbFrame(DecodedOutputId, timestamp, options, colorData));
  }

  /**
   * The WebSocket handler's dispatch: binary messages are decoded, anything
   * else is rejected without producing a frame.
   */
  method ReceiveMessage(msg: WsMessage) returns (r: Result<RgbFrame, DecodeError>)
    ensures msg.Text? ==> r == Failure(UnsupportedMessageType)
    ensures msg.Binary? ==> r == Decode(msg.data)
  {
    match msg
    case Binary(data) =>
      r := DecodeMessage(data);
    case Text(_) =>
      r := Failure(UnsupportedMessageType);
  }

  /** The options byte an encoder writes: bit 0 set exactly when the buffer is to be cleared. */
  function OptionsByte(o: RgbFrameOptions): byte {
    if o.clearBuffer then 1 else 0
  }

  /** A sample whose three channels fit in a byte each. */
  predicate IsByteSample(c: Rgb) {
    0 <= c.r < 256 && 0 <= c.g < 256 && 0 <= c.b < 256
  }

  /** The color groups of a message: three bytes per sample, in order. */
  function Flatten(samples: seq<Rgb>): (s: seq<byte>)
    requires forall k | 0 <= k < |samples| :: IsByteSample(samples[k])
    ensures |s| == 3 * |samples|
  {
    if samples == [] then []
    else
      assert IsByteSample(samples[0]);
      [samples[0].r as byte, samples[0].g as byte, samples[0].b as byte] + Flatten(samples[1..])
  }

  /** Sample `k` occupies bytes `3k`, `3k + 1` and `3k + 2` of the flattened groups. */
  lemma {:induction false} FlattenAt(samples: seq<Rgb>, k: nat)
    requires forall j | 0 <= j < |samples| :: IsByteSample(samples[j])
    requires k < |samples|
    ensures Flatten(samples)[3 * k] as int == samples[k].r
    ensures Flatten(samples)[3 * k + 1] as int == samples[k].g
    ensures Flatten(samples)[3 * k + 2] as int == samples[k].b
  {
    if k > 0 {
      FlattenAt(samples[1..], k - 1);
    }
  }

  /** The message a sender builds for a frame: options, four unused bytes, timestamp, color groups. */
  function Encode(options: RgbFrameOptions, unused: seq<byte>, timestamp: nat, samples: seq<Rgb>): (m: seq<byte>)
    requires |unused| == 4 && timestamp < Pow256(8)
    requires forall k | 0 <= k < |samples| :: IsByteSample(samples[k])
    ensures |m| == HeaderLength + 3 * |samples|
  {
    [OptionsByte(options)] + unused + ToLittleEndian(timestamp, 8) + Flatten(samples)
  }

  /**
   * Decoding an encoded frame gives back its options, its timestamp and its
   * samples, whatever the four unused bytes hold; the output id is always
   * `DecodedOutputId`.
   */
  lemma EncodeDecodeRoundTrip(options: RgbFrameOptions, unused: seq<byte>, timestamp: nat, samples: seq<Rgb>)
    requires |unused| == 4 && timestamp < Pow256(8)
    requires forall k | 0 <= k < |samples| :: IsByteSample(samples[k])
    ensures Decode(Encode(options, unused, timestamp, samples)) == Success(RgbFrame(DecodedOutputId, timestamp, options, samples))
  {
    var m := Encode(options, unused, timestamp, samples);
    var flat := Flatten(samples);
    assert m[5..13] == ToLittleEndian(timestamp, 8);
    assert Slice(m, 5, 13) == m[5..13];
    LittleEndianRoundTrip(timestamp, 8);
    assert WellFormed(m);
    var r := Decode(m);
    forall k | 0 <= k < |samples|
      ensures SampleAt(m, k) == samples[k]
    {
      FlattenAt(samples, k);
      assert m[HeaderLength + 3 * k] == flat[3 * k];
      assert m[HeaderLength + 3 * k + 1] == flat[3 * k + 1];
      assert m[HeaderLength + 3 * k + 2] == flat[3 * k + 2];
    }
    assert r.value.rgbData == samples;
  }

  /**
   * The other direction: a well-formed message with a full header is the
   * encoding of what it decodes to, except that byte 0 keeps only bit 0.
   */
  lemma DecodeEncodeRoundTrip(m: seq<byte>)
    requires WellFormed(m) && |m| >= HeaderLength
    ensures var f := Decode(m).value;
      && f.timestamp < Pow256(8)
      && (forall k | 0 <= k < |f.rgbData| :: IsByteSample(f.rgbData[k]))
      && Encode(f.options, m[1..5], f.timestamp, f.rgbData) == [m[0] % 2] + m[1..]
  {
    var f := Decode(m).value;
    assert Slice(m, 5, 13) == m[5..13];
    LittleEndianBound(m[5..13]);
    ToLittleEndianRoundTrip(m[5..13]);
    var samples := f.rgbData;
    forall k | 0 <= k < |samples| ensures IsByteSample(samples[k]) {
      assert samples[k] == SampleAt(m, k);
    }
    var flat := Flatten(samples);
    forall i | 0 <= i < |flat| ensures flat[i] == m[HeaderLength + i] {
      var k := i / 3;
      FlattenAt(samples, k);
      assert samples[k] == SampleAt(m, k);
    }
    assert flat == m[HeaderLength..];
    assert m[1..] == m[1..5] + m[5..13] + m[HeaderLength..];
  }

  /**
   * A message of at most the header decodes to a frame with no samples: the
   * timestamp is read from whichever of bytes 5..12 are present, and is 0
   * when none are.
   */
  lemma DecodeShortHeader(m: seq<byte>)
    requires 0 < |m| <= HeaderLength
    ensures Decode(m).Success? && Decode(m).value.rgbData == []
    ensures Decode(m).value.timestamp == (if |m| > 5 then LittleEndian(m[5..]) else 0)
    ensures Decode(m).value.options.clearBuffer <==> m[0] % 2 == 1
  {
    if |m| > 5 {
      assert Slice(m, 5, 13) == m[5..];
    } else {
      assert Slice(m, 5, 13) == [];
    }
  }

  /**
   * Only bit 0 of byte 0 and bytes 5 onwards decide the decoded frame:
   * the other option bits and the four unused bytes are ignored.
   */
  lemma DecodeIgnoresUnusedBits(m: seq<byte>, m': seq<byte>)
    requires |m| == |m'| > 0 && m[0] % 2 == m'[0] % 2
    requires forall k | 5 <= k < |m| :: m[k] == m'[k]
    ensures Decode(m) == Decode(m')
  {
    assert Slice(m, 5, 13) == Slice(m', 5, 13);
    if WellFormed(m) {
      assert Decode(m).value.rgbData == Decode(m').value.rgbData;
    }
  }

  /** The configurations joined by commas, as `__handle_get` accumulates them. */
  function Joined(items: seq<string>): string {
    if |items| == 0 then ""
    else if |items| == 1 then items[0]
    else Joined(items[..|items| - 1]) + "," + items[|items| - 1]
  }

  /** The JSON list of already serialised items. */
  function JsonList(items: seq<string>): string {
    "[" + Joined(items) + "]"
  }

  /**
   * The serialisation loop of `__handle_get`: an opening bracket, each item
   * followed by a comma unless it is the last one, a closing bracket.
   */
  method SerializeList(items: seq<string>) returns (s: string)
    ensures s == JsonList(items)
  {
    s := "[";
    var i := 0;
    while i < |items|
      invariant 0 <= i <= |items|
      invariant s == "[" + Joined(items[..i]) + (if 0 < i < |items| then "," else "")
    {
      assert items[..i + 1][..i] == items[..i];
      s := s + items[i];
      if i < |items| - 1 {
        s := s + ",";
      }
      i := i + 1;
    }
    assert items[..i] == items;
    s := s + "]";
  }

  /** The number of occurrences of `c` in `s`. */
  function CountChar(s: string, c: char): nat {
    if s == [] then 0 else (if s[0] == c then 1 else 0) + CountChar(s[1..], c)
  }

  lemma {:induction false} CountCharConcat(a: string, b: string, c: char)
    ensures CountChar(a + b, c) == CountChar(a, c) + CountChar(b, c)
  {
    if a != [] {
      assert (a + b)[1..] == a[1..] + b;
      CountCharConcat(a[1..], b, c);
    } else {
      assert a + b == b;
    }
  }

  /** The occurrences of `c` in all of `items` together. */
  function TotalCount(items: seq<string>, c: char): nat {
    if items == [] then 0 else TotalCount(items[..|items| - 1], c) + CountChar(items[|items| - 1], c)
  }

  /** The length of all of `items` together. */
  function TotalLength(items: seq<string>): nat {
    if items == [] then 0 else TotalLength(items[..|items| - 1]) + |items[|items| - 1]|
  }

  /** Separators added between `n` items: one fewer than the items, none for none. */
  function Separators(n: nat): nat {
    if n == 0 then 0 else n - 1
  }

  /**
   * The serialised list holds the commas of its items plus one separating
   * comma between each two neighbours; the empty list is `"[]"`.
   */
  lemma {:induction false} JsonListCommas(items: seq<string>)
    ensures CountChar(JsonList(items), ',') == TotalCount(items, ',') + Separators(|items|)
    ensures |items| == 0 ==> JsonList(items) == "[]"
  {
    JoinedCommas(items);
    CountCharConcat("[", Joined(items), ',');
    CountCharConcat("[" + Joined(items), "]", ',');
  }

  /** The joined items hold the items' own commas plus `n - 1` separating commas. */
  lemma {:induction false} JoinedCommas(items: seq<string>)
    ensures CountChar(Joined(items), ',') == TotalCount(items, ',') + Separators(|items|)
  {
    if |items| == 1 {
      assert items[..0] == [];
    } else if |items| > 1 {
      var init := items[..|items| - 1];
      JoinedCommas(init);
      CountCharConcat(Joined(init), ",", ',');
      CountCharConcat(Joined(init) + ",", items[|items| - 1], ',');
    }
  }

  /**
   * The serialised list is the items' characters, `n - 1` commas and the
   * two brackets, with nothing else added or lost.
   */
  lemma {:induction false} JsonListLength(items: seq<string>)
    ensures |JsonList(items)| == 2 + TotalLength(items) + Separators(|items|)
  {
    if |items| == 1 {
      assert items[..0] == [];
    } else if |items| > 1 {
      JsonListLength(items[..|items| - 1]);
    }
  }
}
