/** Building a board renderer from its name (ex1/RendererFactory.java). The
    renderer classes are not part of this model; a result is the tag of
    the class the factory would instantiate, with its argument, and None
    stands for the null it returns for an unknown name. */
module RendererFactory {
  import opened Basics
  import opened JavaText

  datatype RendererKind = VoidRenderer | ConsoleRenderer(size: int)

  const NoneName: JString := Lit("none")
  const ConsoleName: JString := Lit("console")

  /** The renderer `name` asks for (buildRenderer): "none" draws nothing,
      "console" draws a board of the given size, in any case, and any other
      name builds nothing. */
  function BuildRenderer(name: JString, size: int): (r: Option<RendererKind>)
    ensures r == Some(VoidRenderer) <==> EqualsIgnoreCase(name, NoneName)
    ensures r.Some? && r.value.ConsoleRenderer? <==> EqualsIgnoreCase(name, ConsoleName)
    ensures r.Some? && r.value.ConsoleRenderer? ==> r.value.size == size
  {
    ToLowerIsLower(NoneName);
    ToLowerIsLower(ConsoleName);
    ToLowerIgnoresCase(name, NoneName);
    ToLowerIgnoresCase(name, ConsoleName);
    var lower := ToLower(name);
    if lower == NoneName then Some(VoidRenderer)
    else if lower == ConsoleName then Some(ConsoleRenderer(size))
    else None
  }

  /** Names that differ only in case build the same renderer. */
  lemma BuildRendererIgnoresCase(a: JString, b: JString, size: int)
    requires EqualsIgnoreCase(a, b)
    ensures BuildRenderer(a, size) == BuildRenderer(b, size)
  {
    ToLowerIgnoresCase(a, b);
  }
}
