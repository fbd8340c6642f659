/** Java text as the source sees it: a char is one UTF-16 code unit and a
    String is a sequence of them. */
module JavaText {

  /** A UTF-16 code unit (a Java char). */
  type Code = c: int | 0 <= c < 0x1_0000

  const Space: Code := 32

  /** A Java String: its UTF-16 code units. */
  type JString = seq<Code>

  /** The code units of a string literal, one per character; every literal
      of the source is ASCII, so the replacement character for anything
      outside the Basic Multilingual Plane never comes into play. */
  function Lit(s: string): JString {
    seq(|s|, i requires 0 <= i < |s| => if s[i] as int < 0x1_0000 then s[i] as int else 0xFFFD)
  }

  /** The lower-case form of one code unit, for the ASCII letters: 'A' to
      'Z' become 'a' to 'z' and every other code unit is kept. */
  function LowerCode(c: Code): (l: Code)
    ensures 'A' as int <= c <= 'Z' as int ==> l == c + 32
    ensures !('A' as int <= c <= 'Z' as int) ==> l == c
  {
    if 'A' as int <= c <= 'Z' as int then c + 32 else c
  }

  /** The string lower-cased code unit by code unit (String.toLowerCase
      restricted to ASCII letters). */
  function ToLower(s: JString): (r: JString)
    ensures |r| == |s| && forall i :: 0 <= i < |s| ==> r[i] == LowerCode(s[i])
  {
    seq(|s|, i requires 0 <= i < |s| => LowerCode(s[i]))
  }

  /** A string without upper-case ASCII letters. */
  predicate IsLower(s: JString) {
    forall i :: 0 <= i < |s| ==> !('A' as int <= s[i] <= 'Z' as int)
  }

  /** Two strings that differ at most in the case of ASCII letters
      (String.equalsIgnoreCase restricted to them). */
  predicate EqualsIgnoreCase(a: JString, b: JString) {
    |a| == |b| && forall i :: 0 <= i < |a| ==> LowerCode(a[i]) == LowerCode(b[i])
  }

  /** Lower-casing leaves no upper-case letter, changes nothing in a string
      that has none, and so is idempotent. */
  lemma ToLowerIsLower(s: JString)
    ensures IsLower(ToLower(s))
    ensures IsLower(s) ==> ToLower(s) == s
    ensures ToLower(ToLower(s)) == ToLower(s)
  {
  }

  /** Strings equal but for case lower-case to the same string, and only
      they do. */
  lemma {:induction false} ToLowerIgnoresCase(a: JString, b: JString)
    ensures EqualsIgnoreCase(a, b) <==> ToLower(a) == ToLower(b)
  {
    if ToLower(a) == ToLower(b) {
      assert |a| == |ToLower(a)|;
      forall i | 0 <= i < |a|
        ensures LowerCode(a[i]) == LowerCode(b[i])
      {
        assert ToLower(a)[i] == ToLower(b)[i];
      }
    }
  }
}
