/** The colour value types of hsv.h and its named hue constants.

    `hsv_t` and `rgb_t` are three bytes each, reachable through named
    channels (with several alias names per channel, from anonymous unions)
    or as the array `raw[3]`. Both views alias the same storage in field
    order. Here the named view is the datatype's fields, the alias names are
    member functions, and `Raw()` / `FromRaw` convert to and from the
    three-byte array view; a write through `raw[k]` is `WithRaw(k, b)`, a
    write through a name is a datatype update such as `x.(hue := b)`. */
module Color {
  import opened FastLed

  /** The storage of both colour types: exactly three bytes, no padding. */
  type Bytes3 = s: seq<uint8> | |s| == 3 witness [0, 0, 0]

  // ---------------------------------------------------------------------
  // HSVHue
  // ---------------------------------------------------------------------

  /** Pre-defined hue values, in declaration order. */
  datatype HsvHue = HueRed | HueOrange | HueYellow | HueGreen | HueAqua | HueBlue | HuePurple | HuePink
  {
    /** Position of the constant in the enum declaration. */
    function Index(): (k: nat)
      ensures k < 8
    {
      match this
      case HueRed => 0
      case HueOrange => 1
      case HueYellow => 2
      case HueGreen => 3
      case HueAqua => 4
      case HueBlue => 5
      case HuePurple => 6
      case HuePink => 7
    }

    /** The enum's integer value: evenly spaced by 32 around the hue byte. */
    function Hue(): (v: uint8)
      ensures v == 32 * Index()
    {
      match this
      case HueRed => 0
      case HueOrange => 32
      case HueYellow => 64
      case HueGreen => 96
      case HueAqua => 128
      case HueBlue => 160
      case HuePurple => 192
      case HuePink => 224
    }
  }

  /** The constant declared in position k. */
  function HueAt(k: nat): (c: HsvHue)
    requires k < 8
    ensures c.Index() == k
  {
    [HueRed, HueOrange, HueYellow, HueGreen, HueAqua, HueBlue, HuePurple, HuePink][k]
  }

  /** Later constants have strictly larger values. */
  lemma HueStrictlyIncreasing(a: HsvHue, b: HsvHue)
    requires a.Index() < b.Index()
    ensures a.Hue() < b.Hue()
  {
  }

  /** No two constants share a value. */
  lemma HueDistinct(a: HsvHue, b: HsvHue)
    ensures a.Hue() == b.Hue() <==> a == b
  {
  }

  /** The constants are exactly the multiples of 32 that fit in a byte. */
  lemma HueValuesAreMultiplesOf32(v: uint8)
    ensures (exists c: HsvHue :: c.Hue() == v) <==> v % 32 == 0
  {
    if v % 32 == 0 {
      var c := HueAt(v / 32);
      assert c.Hue() == v;
    }
  }

  // ---------------------------------------------------------------------
  // hsv_t
  // ---------------------------------------------------------------------

  /** hsv_t: hue, saturation and value bytes, also readable as raw[0..2]. */
  datatype Hsv = Hsv(hue: uint8, saturation: uint8, value: uint8)
  {
    /** Alias of `hue`. */
    function h(): uint8 { hue }
    /** Aliases of `saturation`. */
    function sat(): uint8 { saturation }
    function s(): uint8 { saturation }
    /** Aliases of `value`. */
    function val(): uint8 { value }
    function v(): uint8 { value }

    /** The `raw[3]` view of the same storage: the channels in declaration order. */
    function Raw(): (raw: Bytes3)
      ensures raw[0] == hue && raw[1] == saturation && raw[2] == value
    {
      [hue, saturation, value]
    }

    /** Assignment `raw[k] = b`: channel k becomes b, the other two keep their bytes. */
    function WithRaw(k: nat, b: uint8): (y: Hsv)
      requires k < 3
      ensures y.hue == (if k == 0 then b else hue)
      ensures y.saturation == (if k == 1 then b else saturation)
      ensures y.value == (if k == 2 then b else value)
    {
      HsvFromRaw(Raw()[k := b])
    }
  }

  /** Reads three bytes of storage as an hsv_t. */
  function HsvFromRaw(raw: Bytes3): (x: Hsv)
    ensures x.Raw() == raw
  {
    Hsv(raw[0], raw[1], raw[2])
  }

  /** Every alias name reads the byte at its index in `raw`. */
  lemma HsvViewsAgree(x: Hsv)
    ensures x.hue == x.h() == x.Raw()[0]
    ensures x.saturation == x.sat() == x.s() == x.Raw()[1]
    ensures x.value == x.val() == x.v() == x.Raw()[2]
  {
  }

  /** The named view and the raw view are two readings of the same three
      bytes: converting either way and back is the identity. */
  lemma HsvRawRoundTrip(x: Hsv, raw: Bytes3)
    ensures HsvFromRaw(x.Raw()) == x
    ensures HsvFromRaw(raw).Raw() == raw
  {
  }

  /** Writing a channel by name changes exactly that byte of `raw`. */
  lemma HsvNamedWriteRawRead(x: Hsv, b: uint8)
    ensures x.(hue := b).Raw() == x.Raw()[0 := b]
    ensures x.(saturation := b).Raw() == x.Raw()[1 := b]
    ensures x.(value := b).Raw() == x.Raw()[2 := b]
  {
  }

  /** Writing `raw[k]` and reading it back through any alias returns the byte. */
  lemma HsvRawWriteNamedRead(x: Hsv, k: nat, b: uint8)
    requires k < 3
    ensures k == 0 ==> x.WithRaw(k, b).h() == b && x.WithRaw(k, b) == x.(hue := b)
    ensures k == 1 ==> x.WithRaw(k, b).s() == b && x.WithRaw(k, b) == x.(saturation := b)
    ensures k == 2 ==> x.WithRaw(k, b).v() == b && x.WithRaw(k, b) == x.(value := b)
  {
  }

  // ---------------------------------------------------------------------
  // rgb_t
  // ---------------------------------------------------------------------

  /** rgb_t: red, green and blue bytes, also readable as raw[0..2]. */
  datatype Rgb = Rgb(red: uint8, green: uint8, blue: uint8)
  {
    /** Alias of `red`. */
    function r(): uint8 { red }
    /** Alias of `green`. */
    function g(): uint8 { green }
    /** Alias of `blue`. */
    function b(): uint8 { blue }

    /** The `raw[3]` view of the same storage: the channels in declaration order. */
    function Raw(): (raw: Bytes3)
      ensures raw[0] == red && raw[1] == green && raw[2] == blue
    {
      [red, green, blue]
    }

    /** Assignment `raw[k] = c`: channel k becomes c, the other two keep their bytes. */
    function WithRaw(k: nat, c: uint8): (y: Rgb)
      requires k < 3
      ensures y.red == (if k == 0 then c else red)
      ensures y.green == (if k == 1 then c else green)
      ensures y.blue == (if k == 2 then c else blue)
    {
      RgbFromRaw(Raw()[k := c])
    }
  }

  /** Reads three bytes of storage as an rgb_t. */
  function RgbFromRaw(raw: Bytes3): (x: Rgb)
    ensures x.Raw() == raw
  {
    Rgb(raw[0], raw[1], raw[2])
  }

  /** Every alias name reads the byte at its index in `raw`. */
  lemma RgbViewsAgree(x: Rgb)
    ensures x.red == x.r() == x.Raw()[0]
    ensures x.green == x.g() == x.Raw()[1]
    ensures x.blue == x.b() == x.Raw()[2]
  {
  }

  /** Converting between the named and the raw view either way and back is the identity. */
  lemma RgbRawRoundTrip(x: Rgb, raw: Bytes3)
    ensures RgbFromRaw(x.Raw()) == x
    ensures RgbFromRaw(raw).Raw() == raw
  {
  }

  /** Writing a channel by name changes exactly that byte of `raw`. */
  lemma RgbNamedWriteRawRead(x: Rgb, c: uint8)
    ensures x.(red := c).Raw() == x.Raw()[0 := c]
    ensures x.(green := c).Raw() == x.Raw()[1 := c]
    ensures x.(blue := c).Raw() == x.Raw()[2 := c]
  {
  }

  /** Writing `raw[k]` and reading it back through any alias returns the byte. */
  lemma RgbRawWriteNamedRead(x: Rgb, k: nat, c: uint8)
    requires k < 3
    ensures k == 0 ==> x.WithRaw(k, c).r() == c && x.WithRaw(k, c) == x.(red := c)
    ensures k == 1 ==> x.WithRaw(k, c).g() == c && x.WithRaw(k, c) == x.(green := c)
    ensures k == 2 ==> x.WithRaw(k, c).b() == c && x.WithRaw(k, c) == x.(blue := c)
  {
  }
}
