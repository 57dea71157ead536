/**
  The settings popover of src/components/settings.tsx: the two radio
  groups' `onValueChange` guards, which accept exactly the listed ids and
  otherwise leave the setting alone, and the example text shown beside each
  output format, checked against a reference rendering of pure red.
 */
module Settings {
  import opened Wrappers
  import opened Decimal
  import Numeric

  // ------------------------------------------------------------ output format

  /** Legacy syntax separates channels by ", ", modern syntax by a space. */
  datatype Syntax = Legacy | Modern

  /** Channels as integers 0..255 or as percentages. */
  datatype Unit = Numbers | Percentage

  /** With the "rgb(...)" wrapper, or only the channel list. */
  datatype Wrapping = Wrapped | Only

  /** One of the eight output formats of the format radio group. */
  datatype Format = Format(syntax: Syntax, unit: Unit, wrapping: Wrapping)

  /** The radio item id of each format. */
  function FormatId(f: Format): string {
    match f
    case Format(Legacy, Numbers, Wrapped) => "legacy-syntax-numbers-commas"
    case Format(Legacy, Percentage, Wrapped) => "legacy-syntax-percentage-commas"
    case Format(Legacy, Numbers, Only) => "legacy-syntax-only-numbers-commas"
    case Format(Legacy, Percentage, Only) => "legacy-syntax-only-percentage-commas"
    case Format(Modern, Numbers, Wrapped) => "modern-syntax-numbers"
    case Format(Modern, Percentage, Wrapped) => "modern-syntax-percentage"
    case Format(Modern, Numbers, Only) => "modern-syntax-only-numbers"
    case Format(Modern, Percentage, Only) => "modern-syntax-only-percentage"
  }

  /** The format group's guard: the id compared against the eight accepted ids in turn. */
  function ParseFormat(e: string): Option<Format> {
    if e == "legacy-syntax-numbers-commas" then Some(Format(Legacy, Numbers, Wrapped))
    else if e == "legacy-syntax-percentage-commas" then Some(Format(Legacy, Percentage, Wrapped))
    else if e == "legacy-syntax-only-numbers-commas" then Some(Format(Legacy, Numbers, Only))
    else if e == "legacy-syntax-only-percentage-commas" then Some(Format(Legacy, Percentage, Only))
    else if e == "modern-syntax-numbers" then Some(Format(Modern, Numbers, Wrapped))
    else if e == "modern-syntax-percentage" then Some(Format(Modern, Percentage, Wrapped))
    else if e == "modern-syntax-only-numbers" then Some(Format(Modern, Numbers, Only))
    else if e == "modern-syntax-only-percentage" then Some(Format(Modern, Percentage, Only))
    else None
  }

  /** The format after the group reports the value `e`: `setFormat(e)` runs only when the guard holds. */
  function SetFormat(current: Format, e: string): Format {
    match ParseFormat(e)
    case Some(f) => f
    case None => current
  }

  /** Each legacy-syntax id passes the guard and names its format. */
  lemma LegacyIdParses(f: Format)
    requires f.syntax == Legacy
    ensures ParseFormat(FormatId(f)) == Some(f)
  {
  }

  /** Each modern-syntax id passes the guard and names its format. */
  lemma ModernIdParses(f: Format)
    requires f.syntax == Modern
    ensures ParseFormat(FormatId(f)) == Some(f)
  {
    assert FormatId(f)[0] == 'm';  // the legacy ids all start with 'l'
  }

  /** Each format's id passes the guard and names that format. */
  lemma ParseFormatOfId(f: Format)
    ensures ParseFormat(FormatId(f)) == Some(f)
  {
    if f.syntax == Legacy {
      LegacyIdParses(f);
    } else {
      ModernIdParses(f);
    }
  }

  /** The guard accepts exactly the eight ids, and each id names its own format. */
  lemma ParseFormatInverse(e: string, f: Format)
    ensures ParseFormat(e) == Some(f) <==> e == FormatId(f)
  {
    if e == FormatId(f) {
      ParseFormatOfId(f);
    }
  }

  /** The eight ids are pairwise different. */
  lemma FormatIdInjective(f: Format, f': Format)
    ensures FormatId(f) == FormatId(f') <==> f == f'
  {
    ParseFormatInverse(FormatId(f), f);
    ParseFormatInverse(FormatId(f), f');
  }

  /** A listed id becomes the format; any other value leaves the format as it was. */
  lemma SetFormatGuard(current: Format, e: string)
    ensures (exists f :: FormatId(f) == e) ==> FormatId(SetFormat(current, e)) == e
    ensures (forall f :: FormatId(f) != e) ==> SetFormat(current, e) == current
  {
    match ParseFormat(e)
    case Some(f) =>
      ParseFormatInverse(e, f);
    case None =>
      forall f
        ensures FormatId(f) != e
      {
        ParseFormatInverse(e, f);
      }
  }

  // -------------------------------------------------------- palette colour space

  /** The ten colour spaces of the palette radio group. */
  datatype Space = Hex | Rgb | Hsl | Hwb | Lab | Oklab | Lch | Oklch | Hsb | Cmyk

  /** The radio item id of each space. */
  function SpaceId(c: Space): string {
    match c
    case Hex => "hex"
    case Rgb => "rgb"
    case Hsl => "hsl"
    case Hwb => "hwb"
    case Lab => "lab"
    case Oklab => "oklab"
    case Lch => "lch"
    case Oklch => "oklch"
    case Hsb => "hsb"
    case Cmyk => "cmyk"
  }

  /** The palette-space group's guard: the id compared against the ten accepted ids in turn. */
  function ParseSpace(e: string): Option<Space> {
    if e == "hex" then Some(Hex)
    else if e == "rgb" then Some(Rgb)
    else if e == "hsl" then Some(Hsl)
    else if e == "hwb" then Some(Hwb)
    else if e == "lab" then Some(Lab)
    else if e == "oklab" then Some(Oklab)
    else if e == "lch" then Some(Lch)
    else if e == "oklch" then Some(Oklch)
    else if e == "hsb" then Some(Hsb)
    else if e == "cmyk" then Some(Cmyk)
    else None
  }

  /** The palette space after the group reports `e`: `setPaletteSpace(e)` runs only when the guard holds. */
  function SetPaletteSpace(current: Space, e: string): Space {
    match ParseSpace(e)
    case Some(c) => c
    case None => current
  }

  /** The guard accepts exactly the ten ids, and each id names its own space. */
  lemma ParseSpaceInverse(e: string, c: Space)
    ensures ParseSpace(e) == Some(c) <==> e == SpaceId(c)
  {
  }

  /** The ten ids are pairwise different. */
  lemma SpaceIdInjective(c: Space, c': Space)
    ensures SpaceId(c) == SpaceId(c') <==> c == c'
  {
    ParseSpaceInverse(SpaceId(c), c);
    ParseSpaceInverse(SpaceId(c), c');
  }

  /** A listed id becomes the palette space; any other value leaves it as it was. */
  lemma SetPaletteSpaceGuard(current: Space, e: string)
    ensures (exists c :: SpaceId(c) == e) ==> SpaceId(SetPaletteSpace(current, e)) == e
    ensures (forall c :: SpaceId(c) != e) ==> SetPaletteSpace(current, e) == current
  {
    match ParseSpace(e)
    case Some(c) =>
      ParseSpaceInverse(e, c);
    case None =>
      forall c
        ensures SpaceId(c) != e
      {
        ParseSpaceInverse(e, c);
      }
  }

  // ------------------------------------------------------------------ examples

  /** The example text beside each format's radio item. */
  function Example(f: Format): string {
    match f
    case Format(Legacy, Numbers, Wrapped) => "rgb(255, 0, 0)"
    case Format(Legacy, Numbers, Only) => "255, 0, 0"
    case Format(Legacy, Percentage, Wrapped) => "rgb(100%, 0%, 0%)"
    case Format(Legacy, Percentage, Only) => "100%, 0%, 0%"
    case Format(Modern, Numbers, Wrapped) => "rgb(255 0 0)"
    case Format(Modern, Numbers, Only) => "255 0 0"
    case Format(Modern, Percentage, Wrapped) => "rgb(100% 0% 0%)"
    case Format(Modern, Percentage, Only) => "100% 0% 0%"
  }

  function Separator(s: Syntax): string {
    match s
    case Legacy => ", "
    case Modern => " "
  }

  /** One channel byte in a unit: the integer itself, or its share of 255 as a rounded percentage. */
  function Channel(u: Unit, x: int): string {
    match u
    case Numbers => IntToString(x)
    case Percentage => IntToString(Numeric.Round(x as real * 100.0 / 255.0)) + "%"
  }

  /** The three channels in a format's unit, joined by its syntax's separator. */
  function ChannelList(f: Format, r: int, g: int, b: int): string {
    var sep := Separator(f.syntax);
    Channel(f.unit, r) + sep + Channel(f.unit, g) + sep + Channel(f.unit, b)
  }

  /** The reference rendering of a colour in a format, against which the examples are read. */
  function RenderRgb(f: Format, r: int, g: int, b: int): string {
    match f.wrapping
    case Wrapped => "rgb(" + ChannelList(f, r, g, b) + ")"
    case Only => ChannelList(f, r, g, b)
  }

  /** The channel texts of pure red: "255" and "0", or "100%" and "0%". */
  lemma RedChannels()
    ensures Channel(Numbers, 255) == "255" && Channel(Numbers, 0) == "0"
    ensures Channel(Percentage, 255) == "100%" && Channel(Percentage, 0) == "0%"
  {
    assert NatToString(0) == "0" && NatToString(1) == "1";
    assert NatToString(10) == "10" && NatToString(100) == "100";
    assert NatToString(2) == "2" && NatToString(25) == "25" && NatToString(255) == "255";
    assert Numeric.Round(255 as real * 100.0 / 255.0) == 100;
    assert Numeric.Round(0 as real * 100.0 / 255.0) == 0;
  }

  /** The channel list of pure red in each unit and syntax. */
  lemma RedChannelList(f: Format)
    ensures f.unit == Numbers && f.syntax == Legacy ==> ChannelList(f, 255, 0, 0) == "255, 0, 0"
    ensures f.unit == Numbers && f.syntax == Modern ==> ChannelList(f, 255, 0, 0) == "255 0 0"
    ensures f.unit == Percentage && f.syntax == Legacy ==> ChannelList(f, 255, 0, 0) == "100%, 0%, 0%"
    ensures f.unit == Percentage && f.syntax == Modern ==> ChannelList(f, 255, 0, 0) == "100% 0% 0%"
  {
    RedChannels();
  }

  /** The wrapped examples in numbers are pure red. */
  lemma WrappedNumbersExampleIsRed(f: Format)
    requires f.wrapping == Wrapped && f.unit == Numbers
    ensures Example(f) == "rgb(" + ChannelList(f, 255, 0, 0) + ")"
  {
    RedChannelList(f);
  }

  /** The wrapped examples in percentages are pure red. */
  lemma WrappedPercentageExampleIsRed(f: Format)
    requires f.wrapping == Wrapped && f.unit == Percentage
    ensures Example(f) == "rgb(" + ChannelList(f, 255, 0, 0) + ")"
  {
    RedChannelList(f);
  }

  /** The unwrapped examples in numbers are the bare channel list of pure red. */
  lemma BareNumbersExampleIsRed(f: Format)
    requires f.wrapping == Only && f.unit == Numbers
    ensures Example(f) == ChannelList(f, 255, 0, 0)
  {
    RedChannelList(f);
  }

  /** The unwrapped examples in percentages are the bare channel list of pure red. */
  lemma BarePercentageExampleIsRed(f: Format)
    requires f.wrapping == Only && f.unit == Percentage
    ensures Example(f) == ChannelList(f, 255, 0, 0)
  {
    RedChannelList(f);
  }

  /** Every example is pure red rendered in its own format. */
  lemma ExampleIsRed(f: Format)
    ensures Example(f) == RenderRgb(f, 255, 0, 0)
  {
    match (f.wrapping, f.unit)
    case (Wrapped, Numbers) => WrappedNumbersExampleIsRed(f);
    case (Wrapped, Percentage) => WrappedPercentageExampleIsRed(f);
    case (Only, Numbers) => BareNumbersExampleIsRed(f);
    case (Only, Percentage) => BarePercentageExampleIsRed(f);
  }

  /** Text that carries the "rgb(" ... ")" wrapper. */
  predicate IsWrapped(s: string) {
    |s| >= 5 && s[..4] == "rgb(" && s[|s| - 1] == ')'
  }

  /** A channel's text starts with a digit and holds no comma and no space; it holds '%' exactly in a percentage. */
  lemma ChannelShape(u: Unit, x: int)
    requires 0 <= x <= 255
    ensures
      var s := Channel(u, x);
      && |s| >= 1 && IsDigit(s[0]) && ',' !in s && ' ' !in s
      && ('%' in s <==> u == Percentage)
  {
    var s := Channel(u, x);
    var n := if u == Numbers then x else Numeric.Round(x as real * 100.0 / 255.0);
    assert n >= 0 by {
      if u == Percentage {
        assert x as real * 100.0 / 255.0 >= 0.0;
      }
    }
    var d := NatToString(n);
    assert s[..|d|] == d;
    forall i | 0 <= i < |s|
      ensures s[i] != ',' && s[i] != ' '
      ensures s[i] == '%' ==> u == Percentage
    {
      if i < |d| {
        assert s[i] == d[i];
      }
    }
    if u == Percentage {
      assert s[|s| - 1] == '%';
    }
  }

  /**
    The shape of a rendered colour tells its format apart: a comma exactly
    in legacy syntax, a '%' exactly in percentages, the "rgb(" wrapper
    exactly when wrapped.
   */
  lemma RenderShape(f: Format, r: int, g: int, b: int)
    requires 0 <= r <= 255 && 0 <= g <= 255 && 0 <= b <= 255
    ensures
      var s := RenderRgb(f, r, g, b);
      && (',' in s <==> f.syntax == Legacy)
      && ('%' in s <==> f.unit == Percentage)
      && (IsWrapped(s) <==> f.wrapping == Wrapped)
  {
    var sr, sg, sb := Channel(f.unit, r), Channel(f.unit, g), Channel(f.unit, b);
    ChannelShape(f.unit, r);
    ChannelShape(f.unit, g);
    ChannelShape(f.unit, b);
    var sep := Separator(f.syntax);
    var body := ChannelList(f, r, g, b);
    assert body == sr + sep + sg + sep + sb;
    assert body[0] == sr[0];
    assert sr[0] in body;
    assert ',' in body <==> ',' in sep by {
      assert forall c :: c in body <==> c in sr || c in sep || c in sg || c in sb;
    }
    assert '%' in body <==> '%' in sr || '%' in sg || '%' in sb by {
      assert forall c :: c in body <==> c in sr || c in sep || c in sg || c in sb;
    }
    var s := RenderRgb(f, r, g, b);
    if f.wrapping == Wrapped {
      assert s == "rgb(" + body + ")";
      assert s[..4] == "rgb(";
      assert forall c :: c in s <==> c in "rgb(" || c in body || c == ')';
    } else {
      assert s == body;
      assert s[0] != 'r';
    }
  }

  /** The eight examples read as eight different formats. */
  lemma ExampleShape(f: Format)
    ensures ',' in Example(f) <==> f.syntax == Legacy
    ensures '%' in Example(f) <==> f.unit == Percentage
    ensures IsWrapped(Example(f)) <==> f.wrapping == Wrapped
  {
    ExampleIsRed(f);
    RenderShape(f, 255, 0, 0);
  }
}
