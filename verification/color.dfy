/** The demo app's colour table: a colour is a name and a numeric code, it
    is looked up by code, and two colours are equal when their codes are. */
module Colors {
  import opened Results

  datatype Color = Color(name: string, code: int)

  datatype ColorError = UnknownColorCode(code: int)

  /** The codes the table knows. */
  const KNOWN_CODES: set<int> := {11, 18, 19, 25, 29, 35, 39, 40, 69, 72}

  /** The table's name for a known code. */
  function NameOf(code: int): (name: string)
    requires code in KNOWN_CODES
  {
    match code
    case 11 => "Off-White"
    case 18 => "Anthracite"
    case 19 => "Black"
    case 25 => "Beige"
    case 29 => "Brown"
    case 35 => "Blue"
    case 39 => "Navy"
    case 40 => "Powder"
    case 69 => "Forest"
    case _ => "Pink"
  }

  /** `init(colorCode:)`: a known code gives the table's colour carrying
      that very code; any other code is `unknownColorCode` with it. */
  function FromCode(code: int): (r: Result<Color, ColorError>)
    ensures r.Ok? <==> code in KNOWN_CODES
    ensures r.Ok? ==> r.value.code == code && r.value.name == NameOf(code)
    ensures r.Err? ==> r.error == UnknownColorCode(code)
  {
    match code
    case 11 => Ok(Color("Off-White", 11))
    case 18 => Ok(Color("Anthracite", 18))
    case 19 => Ok(Color("Black", 19))
    case 25 => Ok(Color("Beige", 25))
    case 29 => Ok(Color("Brown", 29))
    case 35 => Ok(Color("Blue", 35))
    case 39 => Ok(Color("Navy", 39))
    case 40 => Ok(Color("Powder", 40))
    case 69 => Ok(Color("Forest", 69))
    case 72 => Ok(Color("Pink", 72))
    case _ => Err(UnknownColorCode(code))
  }

  /** `==`: codes are compared, names are not. */
  function Same(a: Color, b: Color): (r: bool)
    ensures r <==> a.(name := b.name) == b
  {
    a.code == b.code
  }

  /** Equality by code is an equivalence that ignores the name. */
  lemma SameIsEquivalence(a: Color, b: Color, c: Color, name: string)
    ensures Same(a, a)
    ensures Same(a, b) ==> Same(b, a)
    ensures Same(a, b) && Same(b, c) ==> Same(a, c)
    ensures Same(a, a.(name := name))
  {
  }

  /** Looking a colour's own code up again gives a colour equal to it; on
      table colours it gives the colour itself. */
  lemma FromCodeRoundTrip(c: Color)
    requires c.code in KNOWN_CODES
    ensures FromCode(c.code).Ok? && Same(FromCode(c.code).value, c)
    ensures c.name == NameOf(c.code) ==> FromCode(c.code) == Ok(c)
  {
  }

  /** The table gives every known code a different name. */
  lemma NamesAreDistinct(a: int, b: int)
    requires a in KNOWN_CODES && b in KNOWN_CODES && a != b
    ensures FromCode(a).value.name != FromCode(b).value.name
  {
  }

  /** The Objective-C box around a colour. */
  datatype ColorBox = ColorBox(unbox: Color)

  /** `boxed`: unboxing gives back the colour, name and all. */
  function Boxed(c: Color): (b: ColorBox)
    ensures b.unbox == c
  {
    ColorBox(c)
  }
}
