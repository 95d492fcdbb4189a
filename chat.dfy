/**
 * Chat components: the sixteen chat colours (plus "no colour"), the names the
 * JSON chat format gives them, and a fresh unstyled component.
 */
module Chat {

  datatype ChatColor =
    | Black | DarkBlue | DarkGreen | DarkAqua | DarkRed | DarkPurple | Gold | Gray
    | DarkGray | Blue | Green | Aqua | Red | LightPurple | Yellow | White
    | NoColor

  datatype ClickEventType = OpenUrl | RunCommand | SuggestCommand | ClickChangePage

  datatype HoverEventType = ShowText | ShowItem | ShowEntity | HoverChangePage

  datatype ChatComponent = ChatComponent(
    text: string,
    color: ChatColor,
    obfuscated: bool,
    bold: bool,
    strikethrough: bool,
    underline: bool,
    italic: bool,
    reset: bool,
    extra: seq<ChatComponent>)

  /** A component that only carries text: no colour, no style flag, no children. */
  predicate Plain(c: ChatComponent)
  {
    && c.color == NoColor
    && !c.obfuscated && !c.bold && !c.strikethrough && !c.underline && !c.italic && !c.reset
    && c.extra == []
  }

  /** `ChatComponent::new` */
  function NewComponent(text: string): (c: ChatComponent)
    ensures c.text == text && Plain(c)
  {
    ChatComponent(text, NoColor, false, false, false, false, false, false, [])
  }

  /** `ChatComponent::color_to_str`: the colour's name in the chat format, empty for no colour. */
  function ColorToStr(cc: ChatColor): (s: string)
    ensures s == "" <==> cc == NoColor
    ensures s != "" ==> SnakeCaseToken(s)
  {
    match cc
    case Black => "black"
    case DarkBlue => "dark_blue"
    case DarkGreen => "dark_green"
    case DarkAqua => "dark_aqua"
    case DarkRed => "dark_red"
    case DarkPurple => "dark_purple"
    case Gold => "gold"
    case Gray => "gray"
    case DarkGray => "dark_gray"
    case Blue => "blue"
    case Green => "green"
    case Aqua => "aqua"
    case Red => "red"
    case LightPurple => "light_purple"
    case Yellow => "yellow"
    case White => "white"
    case NoColor => ""
  }

  predicate IsLower(c: char) { 'a' <= c <= 'z' }

  /**
   * Lower-case words joined by single underscores: starts with a letter, and
   * every underscore is followed by a letter (so none is last or doubled).
   */
  predicate SnakeCaseToken(s: string)
  {
    |s| > 0 && IsLower(s[0]) && SnakeCaseFrom(s, 0)
  }

  predicate SnakeCaseFrom(s: string, k: nat)
    decreases |s| - k
  {
    k >= |s| || ((IsLower(s[k]) || (s[k] == '_' && k + 1 < |s| && IsLower(s[k + 1]))) && SnakeCaseFrom(s, k + 1))
  }

  /** Reading a colour name back; the inverse of `ColorToStr`. */
  function ColorFromStr(s: string): (cc: ChatColor)
  {
    match s
    case "black" => Black
    case "dark_blue" => DarkBlue
    case "dark_green" => DarkGreen
    case "dark_aqua" => DarkAqua
    case "dark_red" => DarkRed
    case "dark_purple" => DarkPurple
    case "gold" => Gold
    case "gray" => Gray
    case "dark_gray" => DarkGray
    case "blue" => Blue
    case "green" => Green
    case "aqua" => Aqua
    case "red" => Red
    case "light_purple" => LightPurple
    case "yellow" => Yellow
    case "white" => White
    case _ => NoColor
  }

  lemma ColorRoundTrip(cc: ChatColor)
    ensures ColorFromStr(ColorToStr(cc)) == cc
  {
  }

  /** Distinct colours have distinct names. */
  lemma ColorToStrInjective(a: ChatColor, b: ChatColor)
    ensures ColorToStr(a) == ColorToStr(b) ==> a == b
  {
    ColorRoundTrip(a);
    ColorRoundTrip(b);
  }

  /** Every string that names a colour is that colour's name. */
  lemma ColorNameRoundTrip(s: string)
    requires ColorFromStr(s) != NoColor
    ensures ColorToStr(ColorFromStr(s)) == s
  {
  }
}
