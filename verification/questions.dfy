/** The question record `parseCSV` builds and the radio labels the page
    renders for it. */
module Questions {

  /** The keys of a question's `options` object, in rendering order. */
  datatype Label = A | B | C | D

  /** The option texts under keys A to D; an empty text means the option is
      not rendered. */
  datatype Options = Options(a: string, b: string, c: string, d: string)

  /** One parsed row: `id` is the row's line index in the trimmed text,
      `answer` the upper-cased answer column (not necessarily a label). */
  datatype Question = Question(id: nat, question: string, options: Options, answer: string)

  /** The radio button's `value`: the key's own name. */
  function LabelName(l: Label): string
  {
    match l
    case A => "A"
    case B => "B"
    case C => "C"
    case D => "D"
  }

  function OptionText(q: Question, l: Label): string
  {
    match l
    case A => q.options.a
    case B => q.options.b
    case C => q.options.c
    case D => q.options.d
  }

  /** A radio button is rendered for a key only when its text is non-empty,
      so only such labels can ever be checked. */
  predicate Selectable(q: Question, l: Label)
  {
    OptionText(q, l) != []
  }
}
