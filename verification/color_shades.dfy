/** The `UIColor` extension of the demo other than `init(hex:)`: random
    colours and the lighter/darker shade transforms. */
module AEColor {
  import opened Options

  /** `CGColorSpaceModel`. */
  datatype ColorSpaceModel = Unknown | Monochrome | Rgb | Cmyk | Lab | DeviceN | Indexed | Pattern | Xyz

  datatype Hsba = Hsba(hue: real, saturation: real, brightness: real, alpha: real)
  datatype WhiteAlpha = WhiteAlpha(white: real, alpha: real)

  /** A `UIColor` as the shade transforms see it: the model of its colour
      space (`None` when it has no colour space), what `getHue` reports
      (`None` when it returns false) and what `getWhite` reports. UIKit's
      own conversions between these are not modelled. */
  datatype Color = Color(model: Option<ColorSpaceModel>, hsb: Option<Hsba>, gray: Option<WhiteAlpha>)

  /** `UIColor(hue:saturation:brightness:alpha:)`: a colour in an RGB space
      whose HSB components are the ones it was built from. */
  function FromHsb(c: Hsba): Color {
    Color(Some(Rgb), Some(c), None)
  }

  /** `UIColor(white:alpha:)`: a colour in a monochrome space. */
  function FromWhite(g: WhiteAlpha): Color {
    Color(Some(Monochrome), None, Some(g))
  }

  /** `UIColor.white`, what both transforms return when they cannot read
      the colour. */
  const White: Color := FromWhite(WhiteAlpha(1.0, 1.0))

  /** The default argument of both transforms. */
  const DefaultShadeFactor: real := 0.5

  predicate InUnit(x: real) {
    0.0 <= x <= 1.0
  }

  predicate HsbInGamut(c: Hsba) {
    InUnit(c.hue) && InUnit(c.saturation) && InUnit(c.brightness) && InUnit(c.alpha)
  }

  predicate WhiteInGamut(g: WhiteAlpha) {
    InUnit(g.white) && InUnit(g.alpha)
  }

  /** Every component UIKit reports lies in [0, 1]. */
  predicate InGamut(c: Color) {
    (c.hsb.Some? ==> HsbInGamut(c.hsb.value)) && (c.gray.Some? ==> WhiteInGamut(c.gray.value))
  }

  // ---------------------------------------------------------------------------
  // Shade transforms on components
  // ---------------------------------------------------------------------------

  /** Lighter in HSB: saturation shrinks by the factor, and brightness
      closes the factor's share of its distance to 1. */
  function LighterHsb(c: Hsba, factor: real): (r: Hsba)
    ensures r.hue == c.hue && r.alpha == c.alpha
    ensures r.saturation == c.saturation * (1.0 - factor)
    ensures 1.0 - r.brightness == (1.0 - c.brightness) * (1.0 - factor)
  {
    var saturation := c.saturation - c.saturation * factor;
    var brightness := c.brightness + (1.0 - c.brightness) * factor;
    Hsba(c.hue, saturation, brightness, c.alpha)
  }

  /** Darker in HSB: brightness shrinks by the factor, and saturation
      closes the factor's share of its distance to 1. */
  function DarkerHsb(c: Hsba, factor: real): (r: Hsba)
    ensures r.hue == c.hue && r.alpha == c.alpha
    ensures r.brightness == c.brightness * (1.0 - factor)
    ensures 1.0 - r.saturation == (1.0 - c.saturation) * (1.0 - factor)
  {
    var brightness := c.brightness - c.brightness * factor;
    var saturation := c.saturation + (1.0 - c.saturation) * factor;
    Hsba(c.hue, saturation, brightness, c.alpha)
  }

  /** Lighter in grayscale: white grows by the factor, capped at 1. */
  function LighterWhite(g: WhiteAlpha, factor: real): (r: WhiteAlpha)
    ensures r.alpha == g.alpha
    ensures r.white <= 1.0 && r.white <= g.white + factor
    ensures r.white == g.white + factor || r.white == 1.0
  {
    var white := g.white + factor;
    WhiteAlpha(if white > 1.0 then 1.0 else white, g.alpha)
  }

  /** Darker in grayscale: white shrinks by the factor, floored at 0. */
  function DarkerWhite(g: WhiteAlpha, factor: real): (r: WhiteAlpha)
    ensures r.alpha == g.alpha
    ensures r.white >= 0.0 && r.white >= g.white - factor
    ensures r.white == g.white - factor || r.white == 0.0
  {
    var white := g.white - factor;
    WhiteAlpha(if white < 0.0 then 0.0 else white, g.alpha)
  }

  // ---------------------------------------------------------------------------
  // lighterColorWithFactor / darkerColorWithFactor
  // ---------------------------------------------------------------------------

  /** `lighterColorWithFactor(_:)`: dispatch on the colour-space model; a
      colour UIKit cannot read in that model, and any other model, gives
      white. */
  function Lighter(c: Color, factor: real): (r: Color)
    ensures c.model == Some(Rgb) && c.hsb.Some? ==> r == FromHsb(LighterHsb(c.hsb.value, factor))
    ensures c.model == Some(Monochrome) && c.gray.Some? ==> r == FromWhite(LighterWhite(c.gray.value, factor))
    ensures !(c.model == Some(Rgb) && c.hsb.Some?) && !(c.model == Some(Monochrome) && c.gray.Some?) ==> r == White
  {
    match c.model
    case Some(Rgb) =>
      if c.hsb.Some? then FromHsb(LighterHsb(c.hsb.value, factor)) else White
    case Some(Monochrome) =>
      if c.gray.Some? then FromWhite(LighterWhite(c.gray.value, factor)) else White
    case _ => White
  }

  /** `darkerColorWithFactor(_:)`, dispatching as `Lighter` does. */
  function Darker(c: Color, factor: real): (r: Color)
    ensures c.model == Some(Rgb) && c.hsb.Some? ==> r == FromHsb(DarkerHsb(c.hsb.value, factor))
    ensures c.model == Some(Monochrome) && c.gray.Some? ==> r == FromWhite(DarkerWhite(c.gray.value, factor))
    ensures !(c.model == Some(Rgb) && c.hsb.Some?) && !(c.model == Some(Monochrome) && c.gray.Some?) ==> r == White
  {
    match c.model
    case Some(Rgb) =>
      if c.hsb.Some? then FromHsb(DarkerHsb(c.hsb.value, factor)) else White
    case Some(Monochrome) =>
      if c.gray.Some? then FromWhite(DarkerWhite(c.gray.value, factor)) else White
    case _ => White
  }

  // ---------------------------------------------------------------------------
  // Random colours
  // ---------------------------------------------------------------------------

  /** `randomColor()`: hue, saturation and brightness are each
      `arc4random() % 256` over 256, for arbitrary 32-bit draws. */
  function RandomColor(hueDraw: nat, saturationDraw: nat, brightnessDraw: nat): (c: Color)
    ensures c.model == Some(Rgb) && c.hsb.Some? && c.hsb.value.alpha == 1.0
    ensures 0.0 <= c.hsb.value.hue < 1.0
    ensures 0.0 <= c.hsb.value.saturation < 1.0 && 0.0 <= c.hsb.value.brightness < 1.0
  {
    FromHsb(Hsba((hueDraw % 256) as real / 256.0, (saturationDraw % 256) as real / 256.0,
                 (brightnessDraw % 256) as real / 256.0, 1.0))
  }

  /** `randomVividColor()`: saturation and brightness are kept in the upper
      half, away from white and black. */
  function RandomVividColor(hueDraw: nat, saturationDraw: nat, brightnessDraw: nat): (c: Color)
    ensures c.model == Some(Rgb) && c.hsb.Some? && c.hsb.value.alpha == 1.0
    ensures 0.0 <= c.hsb.value.hue < 1.0
    ensures 0.5 <= c.hsb.value.saturation < 1.0 && 0.5 <= c.hsb.value.brightness < 1.0
  {
    FromHsb(Hsba((hueDraw % 256) as real / 256.0, (saturationDraw % 128) as real / 256.0 + 0.5,
                 (brightnessDraw % 128) as real / 256.0 + 0.5, 1.0))
  }

  // ---------------------------------------------------------------------------
  // Properties of the shade transforms
  // ---------------------------------------------------------------------------

  lemma ScaleInUnit(x: real, f: real)
    requires InUnit(x) && InUnit(f)
    ensures InUnit(x * (1.0 - f)) && x * (1.0 - f) <= x
  {
    assert x * (1.0 - f) <= x * 1.0;
  }

  lemma LighterHsbBounds(c: Hsba, factor: real)
    requires HsbInGamut(c) && InUnit(factor)
    ensures var r := LighterHsb(c, factor);
            HsbInGamut(r) && r.saturation <= c.saturation && r.brightness >= c.brightness
  {
    var r := LighterHsb(c, factor);
    ScaleInUnit(c.saturation, factor);
    assert r.saturation == c.saturation * (1.0 - factor);
    ScaleInUnit(1.0 - c.brightness, factor);
    var q := (1.0 - c.brightness) * (1.0 - factor);
    assert q <= 1.0 - c.brightness;
    assert 1.0 - r.brightness == q;
    assert r.brightness >= c.brightness;
  }

  lemma DarkerHsbBounds(c: Hsba, factor: real)
    requires HsbInGamut(c) && InUnit(factor)
    ensures var r := DarkerHsb(c, factor);
            HsbInGamut(r) && r.brightness <= c.brightness && r.saturation >= c.saturation
  {
    var r := DarkerHsb(c, factor);
    ScaleInUnit(c.brightness, factor);
    assert r.brightness == c.brightness * (1.0 - factor);
    assert r.brightness <= c.brightness;
    ScaleInUnit(1.0 - c.saturation, factor);
    var q := (1.0 - c.saturation) * (1.0 - factor);
    assert q <= 1.0 - c.saturation;
    assert 1.0 - r.saturation == q;
    assert r.saturation >= c.saturation;
  }

  /** With components and factor in [0, 1], both shades stay in [0, 1] and
      move the way their names say: lighter never lowers brightness or white
      nor raises saturation, darker the reverse. */
  lemma ShadesStayInGamut(c: Color, factor: real)
    requires InGamut(c) && InUnit(factor)
    ensures InGamut(Lighter(c, factor)) && InGamut(Darker(c, factor))
    ensures c.model == Some(Rgb) && c.hsb.Some? ==>
              && Lighter(c, factor).hsb.value.saturation <= c.hsb.value.saturation
              && Lighter(c, factor).hsb.value.brightness >= c.hsb.value.brightness
              && Darker(c, factor).hsb.value.brightness <= c.hsb.value.brightness
              && Darker(c, factor).hsb.value.saturation >= c.hsb.value.saturation
    ensures c.model == Some(Monochrome) && c.gray.Some? ==>
              && Lighter(c, factor).gray.value.white >= c.gray.value.white
              && Darker(c, factor).gray.value.white <= c.gray.value.white
  {
    if c.model == Some(Rgb) && c.hsb.Some? {
      LighterHsbBounds(c.hsb.value, factor);
      DarkerHsbBounds(c.hsb.value, factor);
    }
  }

  /** A factor of 0 leaves a colour built from HSB components, or from an
      in-range white, unchanged. */
  lemma ZeroFactorIsIdentity(c: Color)
    requires (c.model == Some(Rgb) && c.hsb.Some? && c == FromHsb(c.hsb.value))
          || (c.model == Some(Monochrome) && c.gray.Some? && c == FromWhite(c.gray.value) && InUnit(c.gray.value.white))
    ensures Lighter(c, 0.0) == c && Darker(c, 0.0) == c
  {
  }

  /** A factor of 1 gives the extremes: lighter drops all saturation and
      reaches full brightness (or white 1), darker reaches zero brightness
      and full saturation (or white 0 from an in-range white). */
  lemma FullFactorReachesExtremes(c: Color)
    requires c.model.Some? && (c.model.value == Rgb ==> c.hsb.Some?)
    requires c.model.value == Monochrome ==> c.gray.Some? && InUnit(c.gray.value.white)
    ensures c.model.value == Rgb ==>
              && Lighter(c, 1.0).hsb.value.saturation == 0.0 && Lighter(c, 1.0).hsb.value.brightness == 1.0
              && Darker(c, 1.0).hsb.value.brightness == 0.0 && Darker(c, 1.0).hsb.value.saturation == 1.0
    ensures c.model.value == Monochrome ==>
              Lighter(c, 1.0).gray.value.white == 1.0 && Darker(c, 1.0).gray.value.white == 0.0
    ensures c.model.value != Rgb && c.model.value != Monochrome ==>
              Lighter(c, 1.0) == White && Darker(c, 1.0) == White
  {
  }

  function SwapSaturationBrightness(c: Hsba): Hsba {
    Hsba(c.hue, c.brightness, c.saturation, c.alpha)
  }

  /** Darker is lighter seen in a mirror: in HSB it is lighter with
      saturation and brightness exchanged, and in grayscale it is lighter on
      the complement of white. */
  lemma DarkerMirrorsLighter(c: Hsba, g: WhiteAlpha, factor: real)
    ensures DarkerHsb(c, factor) == SwapSaturationBrightness(LighterHsb(SwapSaturationBrightness(c), factor))
    ensures DarkerWhite(g, factor).white == 1.0 - LighterWhite(WhiteAlpha(1.0 - g.white, g.alpha), factor).white
  {
  }

  /** Applying a shade twice is one shade with a combined factor: in HSB
      the factors combine as 1 - (1 - f1)(1 - f2), in grayscale (non-negative
      factors, so the clamp is monotone) they add. */
  lemma ShadesCompose(c: Hsba, g: WhiteAlpha, f1: real, f2: real)
    ensures LighterHsb(LighterHsb(c, f1), f2) == LighterHsb(c, 1.0 - (1.0 - f1) * (1.0 - f2))
    ensures DarkerHsb(DarkerHsb(c, f1), f2) == DarkerHsb(c, 1.0 - (1.0 - f1) * (1.0 - f2))
    ensures f1 >= 0.0 && f2 >= 0.0 ==> LighterWhite(LighterWhite(g, f1), f2) == LighterWhite(g, f1 + f2)
    ensures f1 >= 0.0 && f2 >= 0.0 ==> DarkerWhite(DarkerWhite(g, f1), f2) == DarkerWhite(g, f1 + f2)
  {
    var f := 1.0 - (1.0 - f1) * (1.0 - f2);
    assert 1.0 - f == (1.0 - f1) * (1.0 - f2);
    var l := LighterHsb(LighterHsb(c, f1), f2);
    assert l.saturation == c.saturation * (1.0 - f1) * (1.0 - f2);
    assert 1.0 - l.brightness == (1.0 - c.brightness) * (1.0 - f1) * (1.0 - f2);
    var d := DarkerHsb(DarkerHsb(c, f1), f2);
    assert d.brightness == c.brightness * (1.0 - f1) * (1.0 - f2);
    assert 1.0 - d.saturation == (1.0 - c.saturation) * (1.0 - f1) * (1.0 - f2);
  }

  /** Every value on the grid of `randomColor` is produced by some draw:
      hue, saturation and brightness k/256 for every k below 256. */
  lemma RandomColorCovers(h: nat, s: nat, b: nat)
    requires h < 256 && s < 256 && b < 256
    ensures RandomColor(h, s, b) == FromHsb(Hsba(h as real / 256.0, s as real / 256.0, b as real / 256.0, 1.0))
  {
    assert h % 256 == h && s % 256 == s && b % 256 == b;
  }

  /** Every value on the grid of `randomVividColor` is produced by some
      draw: hue k/256, saturation and brightness 1/2 + k/256 for k below 128. */
  lemma RandomVividColorCovers(h: nat, s: nat, b: nat)
    requires h < 256 && s < 128 && b < 128
    ensures RandomVividColor(h, s, b)
            == FromHsb(Hsba(h as real / 256.0, s as real / 256.0 + 0.5, b as real / 256.0 + 0.5, 1.0))
    ensures RandomColor(h, s, b) == FromHsb(Hsba(h as real / 256.0, s as real / 256.0, b as real / 256.0, 1.0))
  {
    assert h % 256 == h && s % 256 == s && b % 256 == b;
    assert s % 128 == s && b % 128 == b;
  }
}
