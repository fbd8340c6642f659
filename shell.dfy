/** The interactive shell of the ASCII-art program (ascii_art/Shell.java):
    the commands that edit the charset, change the resolution, load an
    image, choose the output and render. The shell's settings are modelled
    twice: as the fields of the `Shell` object the commands update in place,
    and as a `Settings` value with a pure function `Apply` giving the effect
    of one command, which the methods are proved to follow. */
module AsciiShell {
  import opened Basics
  import opened JavaText
  import opened Raster
  import opened ImageUtils
  import opened CharMatching
  import opened ShellExceptions
  import opened AsciiOutputs
  import opened AsciiArt

  const ImageErrorMessage: JString := Lit("Did not execute due to problem with image file")
  const OutOfBoundsMessage: JString := Lit("Did not change resolution due to exceeding boundaries.")
  const IncorrectCommandMessage: JString := Lit("Did not execute due to incorrect command.")
  const ResFormatMessage: JString := Lit("Did not change resolution due to incorrect format.")
  const AddFormatMessage: JString := Lit("Did not add due to incorrect format.")
  const RemoveFormatMessage: JString := Lit("Did not remove due to incorrect format.")
  const EmptyCharsetMessage: JString := Lit("Did not execute. Charset is empty.")

  /** The charset a new shell starts with. */
  const DefaultChars: JString := Lit("0123456789")
  /** The resolution a new shell starts with; no bounds check ever sees it. */
  const DefaultResolution := 128

  const AddWord: JString := Lit("add")
  const RemoveWord: JString := Lit("remove")
  const ResWord: JString := Lit("res")
  const ImageWord: JString := Lit("image")
  const OutputWord: JString := Lit("output")
  const RenderWord: JString := Lit("asciiArt")
  const Up: JString := Lit("up")
  const Down: JString := Lit("down")
  const AllWord: JString := Lit("all")
  const SpaceWord: JString := Lit("space")
  const Dash: Code := 45

  /** An image as the file loader produces it: a well-formed grid with at
      least one pixel, each an 8-bit colour. */
  ghost predicate Loaded(image: Image) {
    image.Valid() && image.height >= 1 && image.width >= 1
  }

  /** The image file loader: `None` stands for the IOException. */
  ghost predicate LoaderValid(load: JString -> Option<Image>) {
    forall path :: load(path).Some? ==> Loaded(load(path).value)
  }

  // ---------------------------------------------------------------------
  // Commands

  /** A command of the shell, parsed from its words. */
  datatype Command =
    | Add(arg: JString)
    | Remove(arg: JString)
    | Res(arg: JString)
    | LoadImage(path: JString)
    | Output(arg: JString)
    | Render

  /** The words that spell a command. */
  function Words(cmd: Command): (words: seq<JString>)
    ensures 1 <= |words| <= 2
  {
    match cmd
    case Add(arg) => [AddWord, arg]
    case Remove(arg) => [RemoveWord, arg]
    case Res(arg) => [ResWord, arg]
    case LoadImage(path) => [ImageWord, path]
    case Output(arg) => [OutputWord, arg]
    case Render => [RenderWord]
  }

  /** The command the words of a line name (the switch of chooseCommand):
      the first word picks the command, the commands that take an argument
      read the second word without a length check, and words after the
      ones read are ignored. */
  function Parse(words: seq<JString>): (r: Outcome<Command>)
    ensures r.Ok? ==> |Words(r.value)| <= |words| && words[..|Words(r.value)|] == Words(r.value)
  {
    if |words| == 0 then Throw(IndexOutOfBounds)
    else if words[0] == RenderWord then
      assert words[..1] == [words[0]];
      Ok(Render)
    else if words[0] !in {AddWord, RemoveWord, ResWord, ImageWord, OutputWord} then
      Throw(IncorrectCommand(IncorrectCommandMessage))
    else if |words| < 2 then Throw(IndexOutOfBounds)
    else
      assert words[..2] == [words[0], words[1]];
      if words[0] == AddWord then Ok(Add(words[1]))
      else if words[0] == RemoveWord then Ok(Remove(words[1]))
      else if words[0] == ResWord then Ok(Res(words[1]))
      else if words[0] == ImageWord then Ok(LoadImage(words[1]))
      else Ok(Output(words[1]))
  }

  /** Parsing the words of a command gives back the command. */
  lemma ParseWords(cmd: Command)
    ensures Parse(Words(cmd)) == Ok(cmd)
  {
    assert AddWord[0] != ResWord[0] && RemoveWord[0] != OutputWord[0];
  }

  /** A line whose first word is no command is refused as an incorrect
      command, whatever follows; a line with no words, or a command that
      needs an argument without one, reads past the end of the words. */
  lemma ParseFailures(words: seq<JString>)
    ensures Parse(words) == Throw(IndexOutOfBounds) <==>
              |words| == 0 || (|words| == 1 && words[0] in {AddWord, RemoveWord, ResWord, ImageWord, OutputWord})
    ensures Parse(words) == Throw(IncorrectCommand(IncorrectCommandMessage)) <==>
              |words| >= 1 && words[0] !in {AddWord, RemoveWord, ResWord, ImageWord, OutputWord, RenderWord}
  {
  }

  // ---------------------------------------------------------------------
  // Character ranges (addRemoveCommand)

  /** The characters from lo to hi inclusive. */
  function RangeSet(lo: int, hi: int): (chars: set<Code>)
    requires 0 <= lo && hi < 0x1_0000
    ensures forall c: Code :: c in chars <==> lo <= c <= hi
    decreases hi - lo
  {
    if hi < lo then {} else RangeSet(lo, hi - 1) + {hi as Code}
  }

  /** The inclusive range an add or remove argument names: "all" is the
      printable ASCII characters 32 to 126, "space" is 32, a single
      character is itself, and "x-y" is the characters between x and y in
      either order. Anything else names no range. */
  function CharRange(arg: JString): (r: Option<(Code, Code)>)
    ensures r.Some? ==> r.value.0 <= r.value.1
    ensures r.Some? <==>
              arg == AllWord || arg == SpaceWord || |arg| == 1 || (|arg| == 3 && arg[1] == Dash)
  {
    if arg == AllWord then Some((32, 126))
    else if arg == SpaceWord then Some((Space, Space))
    else if |arg| == 1 then Some((arg[0], arg[0]))
    else if |arg| == 3 && arg[1] == Dash then
      if arg[0] > arg[2] then Some((arg[2], arg[0])) else Some((arg[0], arg[2]))
    else None
  }

  /** The characters an argument names. */
  function Named(arg: JString): (chars: set<Code>)
    requires CharRange(arg).Some?
  {
    RangeSet(CharRange(arg).value.0, CharRange(arg).value.1)
  }

  /** "x-y" and "y-x" name the same characters: every character from the
      smaller end to the larger one, ends included. */
  lemma RangeEitherOrder(x: Code, y: Code)
    ensures CharRange([x, Dash, y]) == CharRange([y, Dash, x])
    ensures forall c: Code :: c in Named([x, Dash, y]) <==>
              (x <= c <= y || y <= c <= x)
  {
    assert AllWord[1] != Dash && |SpaceWord| == 5;
  }

  /** A one-character argument names that character alone; "all" names
      95 characters. */
  lemma NamedSizes(c: Code)
    ensures Named([c]) == {c}
    ensures |Named(AllWord)| == 95
  {
    assert [c] != AllWord && [c] != SpaceWord;
    assert Named([c]) == {c} by {
      forall x: Code ensures x in Named([c]) <==> x == c { }
    }
    RangeSetSize(32, 126);
  }

  lemma {:induction false} RangeSetSize(lo: Code, hi: int)
    requires lo <= hi + 1 && hi < 0x1_0000
    ensures |RangeSet(lo, hi)| == hi - lo + 1
    decreases hi - lo
  {
    if lo <= hi {
      RangeSetSize(lo, hi - 1);
    }
  }

  /** The charset after adding (add) or removing (remove) some characters. */
  function Edited(chars: set<Code>, named: set<Code>, add: bool): (r: set<Code>)
    ensures add ==> chars <= r && named <= r && r <= chars + named
    ensures !add ==> r <= chars && r !! named && chars <= r + named
  {
    if add then chars + named else chars - named
  }

  // ---------------------------------------------------------------------
  // Resolution (resCommand, checkResolutionBounds)

  /** The bounds check on a new resolution: no more than the image width
      and no less than max(1, width / height). */
  predicate ResolutionInBounds(newRes: int, width: int, height: int)
    requires height >= 1
  {
    var ratio := width as real / height as real;
    newRes <= width && newRes as real >= (if 1.0 >= ratio then 1.0 else ratio)
  }

  /** The bounds in integers: at least 1 and at most the width, and enough
      rows that the resolution times the height reaches the width. */
  lemma {:induction false} ResolutionInBoundsMeans(newRes: int, width: int, height: int)
    requires height >= 1
    ensures ResolutionInBounds(newRes, width, height) <==>
              1 <= newRes <= width && newRes * height >= width
  {
    var ratio := width as real / height as real;
    assert ratio * height as real == width as real;
    assert (newRes * height) as real == newRes as real * height as real;
    ScaleBy(newRes as real, ratio, height as real);
  }

  /** Multiplying both sides by a positive number keeps an inequality. */
  lemma ScaleBy(a: real, b: real, c: real)
    requires c > 0.0
    ensures a >= b <==> a * c >= b * c
  {
    assert a * c - b * c == (a - b) * c;
  }

  /** The resolution a res command ends with (resCommand): "up" doubles and
      "down" halves, rounding down, and the new value must pass the bounds
      check on the current image. */
  function ResolutionStep(arg: JString, resolution: int, image: Option<Image>): (r: Outcome<int>)
    requires resolution >= 1
    requires image.Some? ==> Loaded(image.value)
    ensures r.Ok? ==> r.value >= 1 && image.Some? &&
                      ResolutionInBounds(r.value, image.value.width, image.value.height)
  {
    if arg != Up && arg != Down then Throw(IncorrectFormat(ResFormatMessage))
    else
      var newRes := if arg == Up then 2 * resolution else resolution / 2;
      if image.None? then Throw(NullImage)
      else if !ResolutionInBounds(newRes, image.value.width, image.value.height) then
        Throw(OutOfBoundsRes(OutOfBoundsMessage))
      else Ok(newRes)
  }

  /** From a resolution within bounds, "up" then "down" comes back to it. */
  lemma UpThenDown(resolution: int, image: Image)
    requires resolution >= 1 && Loaded(image)
    requires ResolutionInBounds(resolution, image.width, image.height)
    requires ResolutionStep(Up, resolution, Some(image)).Ok?
    ensures ResolutionStep(Up, resolution, Some(image)) == Ok(2 * resolution)
    ensures ResolutionStep(Down, 2 * resolution, Some(image)) == Ok(resolution)
  {
    assert Up != Down;
  }

  /** From a resolution within bounds, "down" then "up" comes back to it
      exactly when it is even. */
  lemma DownThenUp(resolution: int, image: Image)
    requires resolution >= 1 && Loaded(image)
    requires ResolutionInBounds(resolution, image.width, image.height)
    requires ResolutionStep(Down, resolution, Some(image)).Ok?
    ensures ResolutionStep(Down, resolution, Some(image)) == Ok(resolution / 2)
    ensures ResolutionStep(Up, resolution / 2, Some(image)) == Ok(resolution) <==> resolution % 2 == 0
  {
    assert Up != Down;
  }

  /** Every image has at least one resolution the check accepts: its
      width. */
  lemma WidthIsInBounds(image: Image)
    requires Loaded(image)
    ensures ResolutionInBounds(image.width, image.width, image.height)
  {
    ResolutionInBoundsMeans(image.width, image.width, image.height);
  }

  /** Rendering needs at least one pixel row per sub-image row, so the
      resolution may not exceed the padded height. */
  predicate Renderable(resolution: int, image: Image)
    requires image.WellFormed()
  {
    1 <= resolution <= NextPowerOfTwo(image.height)
  }

  /** A resolution that passes the bounds check can still be one the image
      cannot be rendered at: for a 64 x 2 image, "down" from the starting
      resolution 128 gives 64, which the check accepts, but the padded
      height is 2, the sub-image side 2 / 64 is 0, and the split divides the
      width by it. */
  lemma AcceptedResolutionCrashes()
    ensures var image := Image(seq(2, _ => seq(64, _ => White)), 64, 2);
            Loaded(image) &&
            ResolutionStep(Down, DefaultResolution, Some(image)) == Ok(64) &&
            !Renderable(64, image) && TileSide(Padded(image), 64) == 0
  {
    var image := Image(seq(2, _ => seq(64, _ => White)), 64, 2);
    assert Up != Down;
    ResolutionInBoundsMeans(64, 64, 2);
    assert Log2Ceil(2) == 1;
    assert NextPowerOfTwo(2) == 2;
    PaddedShape(image);
  }

  /** The bounds check with the padded height added as an upper bound. */
  predicate ResolutionFits(newRes: int, image: Image)
    requires Loaded(image)
  {
    ResolutionInBounds(newRes, image.width, image.height) && Renderable(newRes, image)
  }

  /** A resolution that fits can be rendered: the sub-images have a side of
      at least one pixel, there are `newRes` rows of them, and every
      character of the result comes from the charset. */
  lemma FittingResolutionRenders(newRes: int, image: Image, chars: set<Code>, luma: Code -> real)
    requires Loaded(image) && ResolutionFits(newRes, image)
    requires chars != {}
    ensures TileSide(Padded(image), newRes) >= 1
    ensures Buckets(chars, luma).Keys != {} && NoEmptyBucket(Buckets(chars, luma))
    ensures var art := Art(image, newRes, Buckets(chars, luma));
            |art| == newRes &&
            forall i, j :: 0 <= i < |art| && 0 <= j < |art[i]| ==> art[i][j] in chars
  {
    PaddedShape(image);
    TileSideFacts(Padded(image), newRes);
    ArtInCharset(image, newRes, chars, luma);
  }

  // ---------------------------------------------------------------------
  // The settings and the effect of one command

  /** What the shell keeps between commands: the charset of the matcher,
      the resolution, the image (None until one loads) and the output. */
  datatype Settings = Settings(chars: set<Code>, resolution: int, image: Option<Image>, output: AsciiOutput)

  ghost predicate SettingsValid(s: Settings) {
    s.resolution >= 1 && (s.image.Some? ==> Loaded(s.image.value))
  }

  /** The settings after one command, or the exception it ends in. Only the
      charset changes on add and remove, only the resolution on res, only
      the image on image, only the output on output, and a render changes
      none of them. */
  function Apply(s: Settings, cmd: Command, load: JString -> Option<Image>): (r: Outcome<Settings>)
    requires SettingsValid(s) && LoaderValid(load)
    ensures r.Ok? ==> SettingsValid(r.value)
  {
    match cmd
    case Add(arg) =>
      if CharRange(arg).None? then Throw(IncorrectFormat(AddFormatMessage))
      else Ok(s.(chars := Edited(s.chars, Named(arg), true)))
    case Remove(arg) =>
      if CharRange(arg).None? then Throw(IncorrectFormat(RemoveFormatMessage))
      else Ok(s.(chars := Edited(s.chars, Named(arg), false)))
    case Res(arg) =>
      var step := ResolutionStep(arg, s.resolution, s.image);
      if step.Throw? then Throw(step.exception) else Ok(s.(resolution := step.value))
    case LoadImage(path) =>
      if load(path).None? then Throw(ImageUnreadable(ImageErrorMessage))
      else Ok(s.(image := load(path)))
    case Output(arg) =>
      var target := Build(arg);
      if target.Throw? then Throw(target.exception) else Ok(s.(output := target.value))
    case Render =>
      if s.chars == {} then Throw(CharSetEmpty(EmptyCharsetMessage))
      else if s.image.None? then Throw(NullImage)
      else if !Renderable(s.resolution, s.image.value) then Throw(DivisionByZero)
      else Ok(s)
  }

  /** Removing what was just added leaves the charset without the named
      characters, and adding what was just removed leaves it with them. */
  lemma AddThenRemove(s: Settings, arg: JString, load: JString -> Option<Image>)
    requires SettingsValid(s) && LoaderValid(load)
    requires Apply(s, Add(arg), load).Ok?
    ensures Apply(Apply(s, Add(arg), load).value, Remove(arg), load) == Ok(s.(chars := s.chars - Named(arg)))
    ensures Apply(Apply(s, Remove(arg), load).value, Add(arg), load) == Ok(s.(chars := s.chars + Named(arg)))
  {
    assert (s.chars + Named(arg)) - Named(arg) == s.chars - Named(arg);
    assert (s.chars - Named(arg)) + Named(arg) == s.chars + Named(arg);
  }

  /** A render succeeds exactly when the charset is not empty, an image is
      loaded, and the resolution is at most its padded height; it then
      leaves the settings as they were. This holds with the corrected
      lookup, which answers a charset of one brightness where the source's
      lookup throws a null-pointer exception. */
  lemma RenderOutcome(s: Settings, load: JString -> Option<Image>)
    requires SettingsValid(s) && LoaderValid(load)
    ensures Apply(s, Render, load).Ok? <==>
              s.chars != {} && s.image.Some? && Renderable(s.resolution, s.image.value)
    ensures Apply(s, Render, load).Ok? ==> Apply(s, Render, load).value == s
  {
  }

  /** The exceptions the shell does not catch: a division by zero only from
      rendering at a resolution above the padded height, and a null image
      only from res or a render before any image loaded. Every other
      failure is reported and leaves the settings as they were. The
      null-pointer exception of the source's lookup on a charset of one
      brightness is not among them: the model answers there. */
  lemma UnreportedFailures(s: Settings, cmd: Command, load: JString -> Option<Image>)
    requires SettingsValid(s) && LoaderValid(load)
    requires Apply(s, cmd, load).Throw?
    ensures var e := Apply(s, cmd, load).exception;
            (e.DivisionByZero? ==> cmd.Render? && s.image.Some? &&
                                   s.resolution > NextPowerOfTwo(s.image.value.height)) &&
            (e.NullImage? ==> (cmd.Render? || cmd.Res?) && s.image.None?) &&
            !e.IndexOutOfBounds?
  {
  }

  /** A method's outcome `r` and the settings `after` it leaves agree with
      the outcome of `Apply` from `before`: on success the new settings, on
      failure the same exception with the settings untouched. */
  ghost predicate Follows<T>(r: Outcome<T>, step: Outcome<Settings>, before: Settings, after: Settings) {
    match step
    case Ok(next) => r.Ok? && after == next
    case Throw(e) => r == Throw(e) && after == before
  }

  // ---------------------------------------------------------------------
  // The shell object

  /** Adds (add) or removes every character from start to end, one at a
      time (addRemoveChars). */
  method AddRemoveChars(matcher: SubImgCharMatcher, start: Code, end: Code, add: bool)
    requires matcher.Valid()
    modifies matcher
    ensures matcher.Valid()
    ensures matcher.setToPrint == Edited(old(matcher.setToPrint), RangeSet(start, end), add)
  {
    var c: int := start;
    while c <= end
      invariant start <= c <= if start <= end then end + 1 else start
      invariant matcher.Valid()
      invariant matcher.setToPrint == Edited(old(matcher.setToPrint), RangeSet(start, c - 1), add)
    {
      if add {
        matcher.AddChar(c as Code);
      } else {
        matcher.RemoveChar(c as Code);
      }
      c := c + 1;
    }
  }

  /** What a command hands to the output once it has run. */
  datatype Effect = Changed | Rendered(art: array2<Code>, target: AsciiOutput)

  class Shell {
    const matcher: SubImgCharMatcher
    var resolution: int
    var image: Option<Image>
    var output: AsciiOutput

    ghost predicate Valid()
      reads this, matcher
    {
      matcher.Valid() && SettingsValid(Current())
    }

    /** The settings the fields hold. */
    ghost function Current(): Settings
      reads this, matcher
    {
      Settings(matcher.setToPrint, resolution, image, output)
    }

    /** A shell with the digits as its charset, resolution 128, console
        output, and the image the loader gives for the default file (none
        if it cannot be read). */
    constructor (glyph: Code -> Glyph, loaded: Option<Image>)
      requires loaded.Some? ==> Loaded(loaded.value)
      ensures Valid() && fresh(matcher) && matcher.glyph == glyph
      ensures Current() == Settings(RangeSet('0' as Code, '9' as Code), DefaultResolution, loaded, ConsoleOutput)
    {
      matcher := new SubImgCharMatcher(DefaultChars, glyph);
      resolution := DefaultResolution;
      image := loaded;
      output := ConsoleOutput;
      new;
      DefaultCharsAreDigits();
    }

    /** The res command (resCommand). */
    method ResCommand(arg: JString) returns (r: Outcome<()>)
      requires Valid()
      modifies this`resolution
      ensures Valid()
      ensures Follows(r, Apply(old(Current()), Res(arg), _ => None), old(Current()), Current())
    {
      var newRes;
      if arg == Up {
        newRes := 2 * resolution;
      } else if arg == Down {
        newRes := resolution / 2;
      } else {
        return Throw(IncorrectFormat(ResFormatMessage));
      }
      var checked := CheckResolutionBounds(newRes);
      if checked.Throw? {
        return checked;
      }
      resolution := newRes;
      return Ok(());
    }

    /** The bounds check on a new resolution (checkResolutionBounds). */
    method CheckResolutionBounds(newRes: int) returns (r: Outcome<()>)
      requires Valid()
      ensures r.Ok? <==> image.Some? && ResolutionInBounds(newRes, image.value.width, image.value.height)
      ensures r.Throw? ==> r.exception == if image.None? then NullImage else OutOfBoundsRes(OutOfBoundsMessage)
    {
      if image.None? {
        return Throw(NullImage);
      }
      var width := image.value.width;
      var height := image.value.height;
      if newRes > width {
        return Throw(OutOfBoundsRes(OutOfBoundsMessage));
      }
      var ratio := width as real / height as real;
      if newRes as real < (if 1.0 >= ratio then 1.0 else ratio) {
        return Throw(OutOfBoundsRes(OutOfBoundsMessage));
      }
      return Ok(());
    }

    /** The output command (outputCommand). */
    method OutputCommand(arg: JString) returns (r: Outcome<()>)
      requires Valid()
      modifies this`output
      ensures Valid()
      ensures Follows(r, Apply(old(Current()), Output(arg), _ => None), old(Current()), Current())
    {
      var target := Build(arg);
      if target.Throw? {
        return Throw(target.exception);
      }
      output := target.value;
      return Ok(());
    }

    /** The image command: replaces the image with the one loaded from the
        path, and keeps the old one when the file cannot be read. */
    method ImageCommand(path: JString, load: JString -> Option<Image>) returns (r: Outcome<()>)
      requires Valid() && LoaderValid(load)
      modifies this`image
      ensures Valid()
      ensures Follows(r, Apply(old(Current()), LoadImage(path), load), old(Current()), Current())
    {
      var loaded := load(path);
      if loaded.None? {
        return Throw(ImageUnreadable(ImageErrorMessage));
      }
      image := loaded;
      return Ok(());
    }

    /** The add and remove commands (addRemoveCommand). */
    method AddRemoveCommand(arg: JString, add: bool) returns (r: Outcome<()>)
      requires Valid()
      modifies matcher
      ensures Valid()
      ensures Follows(r, Apply(old(Current()), if add then Add(arg) else Remove(arg), _ => None),
                      old(Current()), Current())
    {
      var range := CharRange(arg);
      if range.None? {
        return Throw(IncorrectFormat(if add then AddFormatMessage else RemoveFormatMessage));
      }
      AddRemoveChars(matcher, range.value.0, range.value.1, add);
      return Ok(());
    }

    /** The asciiArt command (runAlgorithm): refuses an empty charset, then
        runs the algorithm on the image at the resolution. */
    method RunAlgorithm() returns (r: Outcome<array2<Code>>)
      requires Valid()
      modifies matcher`stretched, matcher`stretchedSet
      ensures Valid()
      ensures Follows(r, Apply(old(Current()), Render, _ => None), old(Current()), Current())
      ensures r.Ok? ==> fresh(r.value) && image.Some? && Renderable(resolution, image.value) &&
                        matcher.charTreeSet.Keys != {} && NoEmptyBucket(matcher.charTreeSet) &&
                        Depicts(r.value, Art(image.value, resolution, matcher.charTreeSet))
    {
      var text := matcher.ToString();
      if text == [] {
        return Throw(CharSetEmpty(EmptyCharsetMessage));
      }
      if image.None? {
        return Throw(NullImage);
      }
      if resolution > NextPowerOfTwo(image.value.height) {
        return Throw(DivisionByZero);
      }
      var algorithm := new AsciiArtAlgorithm(image.value, resolution, matcher);
      var art := algorithm.Run();
      return Ok(art);
    }

    /** One command line, split into words (chooseCommand). */
    method ChooseCommand(words: seq<JString>, load: JString -> Option<Image>) returns (r: Outcome<Effect>)
      requires Valid() && LoaderValid(load)
      modifies this, matcher
      ensures Valid()
      ensures Parse(words).Throw? ==> r == Throw(Parse(words).exception) && Current() == old(Current())
      ensures Parse(words).Ok? ==> Follows(r, Apply(old(Current()), Parse(words).value, load), old(Current()), Current())
      ensures r.Ok? && r.value.Rendered? ==>
                Parse(words) == Ok(Render) && fresh(r.value.art) && r.value.target == output &&
                image.Some? && Renderable(resolution, image.value) &&
                matcher.charTreeSet.Keys != {} && NoEmptyBucket(matcher.charTreeSet) &&
                Depicts(r.value.art, Art(image.value, resolution, matcher.charTreeSet))
    {
      var cmd := Parse(words);
      if cmd.Throw? {
        return Throw(cmd.exception);
      }
      var done: Outcome<()>;
      match cmd.value {
        case Add(arg) =>
          done := AddRemoveCommand(arg, true);
        case Remove(arg) =>
          done := AddRemoveCommand(arg, false);
        case Res(arg) =>
          done := ResCommand(arg);
        case LoadImage(path) =>
          done := ImageCommand(path, load);
        case Output(arg) =>
          done := OutputCommand(arg);
        case Render =>
          var art := RunAlgorithm();
          if art.Throw? {
            return Throw(art.exception);
          }
          return Ok(Rendered(art.value, output));
      }
      if done.Throw? {
        return Throw(done.exception);
      }
      return Ok(Changed);
    }
  }

  /** The default charset is the ten digits. */
  lemma DefaultCharsAreDigits()
    ensures (set i | 0 <= i < |DefaultChars| :: DefaultChars[i]) == RangeSet('0' as Code, '9' as Code)
  {
    var digits: seq<Code> := [48, 49, 50, 51, 52, 53, 54, 55, 56, 57];
    assert DefaultChars == digits;
    ConsecutiveElements(digits, 48);
  }

  /** The codes of a run of consecutive characters are the range from the
      first to the last. */
  lemma {:induction false} ConsecutiveElements(s: seq<Code>, lo: int)
    requires 0 <= lo && lo + |s| <= 0x1_0000
    requires forall i :: 0 <= i < |s| ==> s[i] == lo + i
    ensures (set i | 0 <= i < |s| :: s[i]) == RangeSet(lo, lo + |s| - 1)
  {
    if |s| > 0 {
      var t := s[..|s| - 1];
      ConsecutiveElements(t, lo);
      assert (set i | 0 <= i < |s| :: s[i]) == (set i | 0 <= i < |t| :: t[i]) + {s[|s| - 1]};
    }
  }
}
