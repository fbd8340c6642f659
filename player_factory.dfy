/** Building a player from its name (ex1/PlayerFactory.java). The player
    classes are not built here; a result is the tag of the class the
    factory would instantiate, and None stands for the null it returns for
    an unknown name. */
module PlayerFactory {
  import opened Basics
  import opened JavaText

  datatype PlayerKind = HumanPlayer | WhateverPlayer | CleverPlayer | GeniusPlayer

  const HumanName: JString := Lit("human")
  const WhateverName: JString := Lit("whatever")
  const CleverName: JString := Lit("clever")
  const GeniusName: JString := Lit("genius")

  /** The name under which each kind is built. */
  function KindName(k: PlayerKind): (name: JString)
    ensures IsLower(name)
  {
    match k
    case HumanPlayer => HumanName
    case WhateverPlayer => WhateverName
    case CleverPlayer => CleverName
    case GeniusPlayer => GeniusName
  }

  /** The player `name` asks for (buildPlayer): its lower-case form is
      compared with the four names, and any other name builds nothing. */
  function BuildPlayer(name: JString): (r: Option<PlayerKind>)
    ensures r.Some? ==> ToLower(name) == KindName(r.value)
    ensures r.None? <==> forall k: PlayerKind :: ToLower(name) != KindName(k)
  {
    var lower := ToLower(name);
    if lower == HumanName then Some(HumanPlayer)
    else if lower == WhateverName then Some(WhateverPlayer)
    else if lower == CleverName then Some(CleverPlayer)
    else if lower == GeniusName then Some(GeniusPlayer)
    else None
  }

  /** The four names are distinct, so each kind is built from its own name,
      spelt in any case, and from no other. */
  lemma {:induction false} BuildPlayerByName(name: JString, k: PlayerKind)
    ensures BuildPlayer(name) == Some(k) <==> EqualsIgnoreCase(name, KindName(k))
  {
    ToLowerIsLower(KindName(k));
    ToLowerIgnoresCase(name, KindName(k));
    assert HumanName[0] == 'h' as int && WhateverName[0] == 'w' as int;
    assert CleverName[0] == 'c' as int && GeniusName[0] == 'g' as int;
  }

  /** Names that differ only in case build the same player. */
  lemma BuildPlayerIgnoresCase(a: JString, b: JString)
    requires EqualsIgnoreCase(a, b)
    ensures BuildPlayer(a) == BuildPlayer(b)
  {
    ToLowerIgnoresCase(a, b);
  }
}
