// The theme palette: CodeThemeDefinition (eight role colours, the Error and
// Warning defaults, the GetColor switch) and its one subclass OneDarkTheme.
// A colour is the 32-bit ARGB value Color.parseColor gives for "#RRGGBB",
// that is 0xFFRRGGBB, held here as an unbounded integer.

module Themes {

  /** The colour roles a rule or the editor can ask a theme for. */
  datatype ColorName =
    | Background | Text | CommentSingle | CommentMulti
    | Operator | Number | String | Keyword | Error | Warning

  /** The colour fields of a CodeThemeDefinition object. */
  datatype Theme = Theme(
    background: int,
    text: int,
    commentSingle: int,
    commentMulti: int,
    operator: int,
    number: int,
    stringLiteral: int,
    keyword: int,
    error: int,
    warning: int)

  /** What Color.parseColor returns for "#RRGGBB": the colour with full alpha. */
  function Opaque(rgb: int): int
    requires 0 <= rgb < 0x100_0000
  {
    0xFF00_0000 + rgb
  }

  /** The Error default every theme inherits ("#FF1919"). */
  const DefaultError: int := Opaque(0xFF_1919)
  /** The Warning default every theme inherits ("#FFE605"). */
  const DefaultWarning: int := Opaque(0xFF_E605)

  /**
   * A theme as a subclass constructor builds it: it assigns the eight role
   * fields and keeps the Error and Warning defaults of the base class.
   */
  function MakeTheme(background: int, text: int, commentSingle: int, commentMulti: int,
                     operator: int, number: int, stringLiteral: int, keyword: int): (t: Theme)
    ensures t.error == Opaque(0xFF_1919) && t.warning == Opaque(0xFF_E605)
    ensures GetColor(t, Background) == background && GetColor(t, Text) == text
    ensures GetColor(t, CommentSingle) == commentSingle && GetColor(t, CommentMulti) == commentMulti
    ensures GetColor(t, Operator) == operator && GetColor(t, Number) == number
    ensures GetColor(t, String) == stringLiteral && GetColor(t, Keyword) == keyword
  {
    Theme(background, text, commentSingle, commentMulti, operator, number, stringLiteral, keyword,
          DefaultError, DefaultWarning)
  }

  /** The field of `t` that carries the colour of role `name`. */
  function Field(t: Theme, name: ColorName): int {
    match name
    case Background => t.background
    case Text => t.text
    case CommentSingle => t.commentSingle
    case CommentMulti => t.commentMulti
    case Operator => t.operator
    case Number => t.number
    case String => t.stringLiteral
    case Keyword => t.keyword
    case Error => t.error
    case Warning => t.warning
  }

  /** CodeThemeDefinition.GetColor: a switch over eight roles, 0 for any other. */
  function GetColor(t: Theme, name: ColorName): int {
    match name
    case CommentMulti => t.commentMulti
    case CommentSingle => t.commentSingle
    case Keyword => t.keyword
    case String => t.stringLiteral
    case Operator => t.operator
    case Number => t.number
    case Background => t.background
    case Text => t.text
    case _ => 0
  }

  /**
   * GetColor answers with the role's own field exactly for the eight roles
   * of its switch; for Error and Warning it answers 0, although those
   * fields exist and, in every theme built by MakeTheme, are not 0.
   */
  lemma GetColorIsField(t: Theme, name: ColorName)
    ensures name != Error && name != Warning ==> GetColor(t, name) == Field(t, name)
    ensures name == Error || name == Warning ==> GetColor(t, name) == 0
    ensures t.error == DefaultError && t.warning == DefaultWarning ==>
              (GetColor(t, name) == Field(t, name) <==> name != Error && name != Warning)
  {
  }

  /** The OneDarkTheme palette. */
  function OneDark(): (t: Theme)
    ensures GetColor(t, Background) == Opaque(0x28_2C34)
    ensures GetColor(t, Text) == Opaque(0x97_9FAD)
    ensures GetColor(t, CommentSingle) == GetColor(t, CommentMulti) == Opaque(0x59_626F)
    ensures GetColor(t, Operator) == Opaque(0x61_AFEF)
    ensures GetColor(t, Number) == Opaque(0xD1_9A66)
    ensures GetColor(t, String) == Opaque(0x98_C379)
    ensures GetColor(t, Keyword) == Opaque(0xC6_79DD)
    ensures t.error == DefaultError && t.warning == DefaultWarning
  {
    MakeTheme(Opaque(0x28_2C34), Opaque(0x97_9FAD), Opaque(0x59_626F), Opaque(0x59_626F),
              Opaque(0x61_AFEF), Opaque(0xD1_9A66), Opaque(0x98_C379), Opaque(0xC6_79DD))
  }

  /**
   * In OneDark every role of the GetColor switch resolves to an opaque
   * (non-zero) colour, and the two comment roles are the only two that share one.
   */
  lemma OneDarkRolesDistinct(a: ColorName, b: ColorName)
    requires a != Error && a != Warning && b != Error && b != Warning
    ensures GetColor(OneDark(), a) >= 0xFF00_0000
    ensures GetColor(OneDark(), a) == GetColor(OneDark(), b) <==>
              a == b || ({a, b} == {CommentSingle, CommentMulti})
  {
  }
}
