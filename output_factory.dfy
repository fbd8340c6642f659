/** Choosing where the ASCII art goes (ascii_art/AsciiOutputFactory.java).
    The output classes themselves are not part of this model; an output is
    the tag of the class the factory builds, with its arguments. */
module AsciiOutputs {
  import opened JavaText
  import opened ShellExceptions

  datatype AsciiOutput =
    | ConsoleOutput
    | HtmlOutput(fileName: JString, fontName: JString)

  const ConsoleName: JString := Lit("console")
  const HtmlName: JString := Lit("html")
  const HtmlFile: JString := Lit("out.html")
  const HtmlFont: JString := Lit("Courier New")
  const IncorrectFormatMessage: JString :=
    Lit("Did not change output method due to incorrect format.")

  /** The output named by `name`, compared code unit by code unit. */
  function Build(name: JString): (r: Outcome<AsciiOutput>)
    ensures r.Ok? <==> name == ConsoleName || name == HtmlName
    ensures r.Ok? && r.value.ConsoleOutput? <==> name == ConsoleName
    ensures r.Ok? && r.value.HtmlOutput? ==> r.value == HtmlOutput(HtmlFile, HtmlFont)
    ensures r.Throw? ==> r.exception == IncorrectFormat(IncorrectFormatMessage)
  {
    if name == ConsoleName then Ok(ConsoleOutput)
    else if name == HtmlName then Ok(HtmlOutput(HtmlFile, HtmlFont))
    else Throw(IncorrectFormat(IncorrectFormatMessage))
  }

  /** Different names never build the same output, and no name other than
      the two spelled in lower case builds anything: "HTML" and "Console"
      are refused. */
  lemma BuildIsCaseSensitive()
    ensures Build(Lit("HTML")).Throw? && Build(Lit("Console")).Throw?
    ensures Build(ConsoleName) != Build(HtmlName)
  {
    assert Lit("HTML")[0] != HtmlName[0];
    assert Lit("Console")[0] != ConsoleName[0];
  }
}
