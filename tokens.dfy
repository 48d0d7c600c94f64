/** The values the inline parser produces: tokens, the attributes of a link
    token, and the four nesting flags of an inline parse state. */
module Tokens {

  datatype Option<+T> = None | Some(value: T)

  /** The `attrs` dictionary of a link or image token: `url`, and `title` only
      when one was given. */
  datatype LinkAttrs = LinkAttrs(url: string, title: Option<string>)

  /** One inline token. A token carries either a `raw` payload or its
      `children`, never both. */
  datatype Token =
    | Text(raw: string)
    | Emphasis(children: seq<Token>)
    | Strong(children: seq<Token>)
    | Link(children: seq<Token>, attrs: LinkAttrs)
    | Image(children: seq<Token>, attrs: LinkAttrs)
    | Codespan(raw: string)
    | InlineHtml(raw: string)
    | Linebreak
    | Softbreak

  /** `in_link`, `in_image`, `in_emphasis`, `in_strong` of an inline state. */
  datatype Flags = Flags(inLink: bool, inImage: bool, inEmphasis: bool, inStrong: bool)

  const NoFlags := Flags(false, false, false, false)
}
