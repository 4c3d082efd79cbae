/** The parts of the chroma highlighting library, and of Go's html package,
    that the highlighter calls. They are foreign code: the model takes each
    of them as a total function chosen by the caller, returning a result or
    an error message. */
module Chroma {
  import opened Text

  datatype Style = Style(name: string)

  datatype Token = Token(kind: string, value: string)

  /** A lexer by name, or one wrapped by chroma.Coalesce, which merges
      adjacent tokens of the same kind. */
  datatype Lexer = Lexer(name: string) | Coalesced(inner: Lexer)

  /** The C lexer (lexers/c), splash.go's last resort. */
  const CLexer := Lexer("C")

  function Coalesce(l: Lexer): Lexer {
    Coalesced(l)
  }

  datatype Env = Env(
    /** styles.Get, None standing for nil */
    styleByName: string -> Option<Style>,
    /** styles.Fallback */
    fallbackStyle: Style,
    /** whether chromaHTML.New(chromaHTML.WithClasses()) returned non-nil */
    formatterOk: bool,
    /** lexers.Get */
    lexerByName: string -> Option<Lexer>,
    /** lexers.Analyse */
    analyse: string -> Option<Lexer>,
    /** lexers.Fallback */
    fallbackLexer: Lexer,
    /** Lexer.Tokenise */
    tokenise: (Lexer, string) -> Result<seq<Token>, string>,
    /** Formatter.WriteCSS: the stylesheet for a style */
    writeCSS: Style -> Result<string, string>,
    /** Formatter.Format: the highlighted markup for a token stream */
    format: (Style, seq<Token>) -> Result<string, string>,
    /** html.UnescapeString */
    unescape: string -> string)

  /** The style named, or the fallback style when the name is unknown. */
  function ResolveStyle(name: string, env: Env): Style
  {
    match env.styleByName(name)
    case Some(s) => s
    case None => env.fallbackStyle
  }
}
