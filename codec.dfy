/**
 * The codec of the mention controller: how one choice is shown in the view
 * (`label`), written into the stored text (`encode`) and highlighted in the
 * rendered preview (`highlight`).
 */
module Codec {

  /**
   * A host-supplied entity. The controller reads nothing of it but its `label`
   * property, held here as `name` (`label` is a Dafny keyword).
   */
  datatype Choice = Choice(name: string)

  /** The configured delimiter, `$`. */
  const Delimiter: char := '$'

  /** The human-readable form: the delimiter, then the choice's label. */
  function Label(c: Choice): (r: string)
    ensures |r| == |c.name| + 1
    ensures r[0] == Delimiter && r[1..] == c.name
  {
    [Delimiter] + c.name
  }

  /**
   * The syntax-encoded form: the delimiter prepended to the label, so two
   * leading delimiters before the `name` field.
   */
  function Encode(c: Choice): (r: string)
    ensures |r| == |Label(c)| + 1
    ensures r[0] == Delimiter && r[1..] == Label(c)
    ensures r[..2] == [Delimiter, Delimiter] && r[2..] == c.name
  {
    [Delimiter] + Label(c)
  }

  /**
   * The default highlighting of a choice in the rendered preview: its label,
   * unadorned, so the encoding with one delimiter less.
   */
  function Highlight(c: Choice): (r: string)
    ensures Encode(c) == [Delimiter] + r
  {
    Label(c)
  }
}
