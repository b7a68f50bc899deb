/** The command line: mode table, output-path choice, the fatal pre-checks
    and the five-way dispatch, over an abstract file system. */
module Cli {
  import opened Wrappers
  import opened Text
  import opened Paths
  import TikzToSvg
  import SvgUtils

  newtype byte = x: int | 0 <= x < 256

  // ---------------------------------------------------------------------
  // Modes and their extensions
  // ---------------------------------------------------------------------

  /** The five values `--mode` accepts. */
  datatype Mode = TikzSvg | SvgPng | SvgHtml | TikzPng | TikzHtml

  /** The spelling of a mode on the command line. */
  function ModeName(m: Mode): string {
    match m
    case TikzSvg => "tikz2svg"
    case SvgPng => "svg2png"
    case SvgHtml => "svg2html"
    case TikzPng => "tikz2png"
    case TikzHtml => "tikz2html"
  }

  lemma ModeNameInjective(m1: Mode, m2: Mode)
    requires ModeName(m1) == ModeName(m2)
    ensures m1 == m2
  {
    assert ModeName(m1)[..|ModeName(m1)|] == ModeName(m2)[..|ModeName(m2)|];
  }

  /** The `--model` default. */
  const DefaultModel: string := "openrouter/google/gemini-3-pro-preview"

  /** The `--scale` default. */
  const DefaultScale: int := 2

  /** `ext_map`: the default output extension of each mode. */
  const ExtMap: map<string, string> :=
    map["tikz2svg" := ".svg", "svg2png" := ".png", "svg2html" := ".html",
        "tikz2png" := ".png", "tikz2html" := ".html"]

  /** The table is total over the modes: every mode has an extension, and
      the extension tells PNG, HTML and SVG output apart. */
  function Extension(m: Mode): (r: string)
    ensures ModeName(m) in ExtMap && r == ExtMap[ModeName(m)]
    ensures r == ".png" <==> m == SvgPng || m == TikzPng
    ensures r == ".html" <==> m == SvgHtml || m == TikzHtml
    ensures r == ".svg" <==> m == TikzSvg
  {
    ExtMap[ModeName(m)]
  }

  /** The modes that go through the model. */
  predicate UsesModel(m: Mode) {
    m == TikzSvg || m == TikzPng || m == TikzHtml
  }

  /** They are exactly the modes whose name starts with `tikz`, the test
      `main` makes (`args.mode.startswith("tikz")`). */
  lemma UsesModelIsTikzPrefix(m: Mode)
    ensures UsesModel(m) <==> StartsWith(ModeName(m), "tikz")
  {
    var n := ModeName(m);
    assert n[..4] == (if UsesModel(m) then "tikz" else "svg2");
  }

  /** The mapped extensions are all valid suffixes. */
  lemma ExtensionValid(m: Mode)
    ensures ValidSuffix(Extension(m))
  {
  }

  /** Parsed command-line arguments; the defaults of `--model` and
      `--scale` are already filled in. */
  datatype Args = Args(mode: Mode, input: string, output: Option<string>,
                       model: string, api: Option<string>, scale: int)

  /** Python truthiness of an optional string: present and non-empty. */
  predicate Given(o: Option<string>) {
    o.Some? && o.value != ""
  }

  /** The output path: `--output` verbatim when given, otherwise the input
      with the mode's extension as its suffix. */
  function OutputPath(args: Args): (r: Result<string, string>)
    ensures Given(args.output) ==> r == Success(args.output.value)
    ensures !Given(args.output) ==> r == WithSuffix(args.input, Extension(args.mode))
  {
    if Given(args.output) then Success(args.output.value)
    else WithSuffix(args.input, Extension(args.mode))
  }

  /** The default output keeps the input's directory and stem and carries
      the mode's extension. */
  lemma DefaultOutputPath(args: Args)
    requires !Given(args.output) && Name(args.input) != ""
    ensures OutputPath(args).Success?
    ensures var q := OutputPath(args).value;
      && q[..NameStart(args.input)] == args.input[..NameStart(args.input)]
      && NameStart(q) == NameStart(args.input)
      && Name(q) == Stem(Name(args.input)) + Extension(args.mode)
      && Stem(Name(q)) == Stem(Name(args.input))
      && Suffix(Name(q)) == Extension(args.mode)
  {
    WithSuffixSuffix(args.input, Extension(args.mode));
  }

  /** For the input `.` (what an empty argument becomes) there is no
      default output path: `with_suffix` raises. */
  lemma DotInputHasNoDefault(args: Args)
    requires args.input == "." && !Given(args.output)
    ensures OutputPath(args).Failure?
  {
    NameOfDot([]);
    assert [] + "." == args.input;
  }

  /** `diagram.tex` in `tikz2png` mode is written to `diagram.png`. */
  lemma DiagramExample(input: string, model: string, api: Option<string>, scale: int)
    requires input == "diagram.tex"
    ensures OutputPath(Args(TikzPng, input, None, model, api, scale)) == Success("diagram.png")
  {
    assert Extension(TikzPng) == ".png";
    DiagramSuffix();
  }

  /** `out/Makefile`, which has no suffix, in `tikz2svg` mode is written to
      `out/Makefile.svg`. */
  lemma MakefileExample(input: string, model: string, api: Option<string>, scale: int)
    requires input == "out/Makefile"
    ensures OutputPath(Args(TikzSvg, input, None, model, api, scale)) == Success("out/Makefile.svg")
  {
    assert Extension(TikzSvg) == ".svg";
    MakefileSuffix();
  }

  // ---------------------------------------------------------------------
  // The file system, the collaborators and one run of `main`
  // ---------------------------------------------------------------------

  /** What a path holds: a UTF-8 text file, a file whose bytes are not
      UTF-8 text, or a directory. */
  datatype Entry = TextFile(text: string) | BinaryFile(data: seq<byte>) | Directory

  type FileSystem = map<string, Entry>

  /** What `main` cannot see into: the model behind `litellm`, the `resvg`
      renderer, and whether the operating system accepts a write to a path
      (its parent directory exists and may be written). Each may fail. */
  datatype Services = Services(
    complete: TikzToSvg.ModelRequest -> Result<string, string>,
    render: (string, int) -> Result<seq<byte>, string>,
    canWrite: string -> bool)

  /** The observable steps of a run, in order. A model call is recorded by
      the input, model and key it was made with; the request itself is
      TikzToSvg.RequestFor of these. */
  datatype Event =
    | ReadInput(path: string)
    | ModelCall(code: string, model: string, apiKey: string)
    | Render(svg: string, scale: int)
    | WriteOutput(path: string, entry: Entry)

  /** How a run ends: `main` returns an exit code, or an exception escapes
      it (the interpreter then reports a traceback). */
  datatype Outcome = Exit(code: int) | Crash(reason: string)

  datatype Conversion = Conversion(result: Result<Entry, string>, events: seq<Event>)

  datatype RunResult = RunResult(outcome: Outcome, events: seq<Event>, files: FileSystem)

  /** The exception `read_text` raises on a directory or on bytes that are
      not UTF-8. */
  const ReadError: string := "input is not a UTF-8 text file"

  /** The exception `write_text`/`write_bytes` raises. */
  const WriteError: string := "output cannot be written"

  /** The key passed to the model (only consulted when it was given). */
  function KeyOf(args: Args): string {
    if args.api.Some? then args.api.value else ""
  }

  /** `tikz2svg(content, args.model, args.api)`: one model call. */
  function ModelStage(content: string, args: Args, svc: Services): (Result<string, string>, seq<Event>) {
    (TikzToSvg.Tikz2Svg(content, args.model, KeyOf(args), svc.complete),
     [ModelCall(content, args.model, KeyOf(args))])
  }

  /** `svg2png(svg, args.scale)`: one call of the renderer. */
  function PngStage(svg: string, args: Args, svc: Services): (Result<Entry, string>, seq<Event>) {
    var png := svc.render(svg, args.scale);
    (if png.Success? then Success(BinaryFile(png.value)) else Failure(png.error),
     [Render(svg, args.scale)])
  }

  /** The body of the `try`, up to the write: the mode's composition of
      `tikz2svg`, `svg2png` and `svg2html`. */
  function Convert(content: string, args: Args, svc: Services): Conversion {
    match args.mode
    case TikzSvg =>
      var (svg, ev) := ModelStage(content, args, svc);
      Conversion(if svg.Success? then Success(TextFile(svg.value)) else Failure(svg.error), ev)
    case SvgPng =>
      var (png, ev) := PngStage(content, args, svc);
      Conversion(png, ev)
    case SvgHtml =>
      Conversion(Success(TextFile(SvgUtils.Svg2Html(content))), [])
    case TikzPng =>
      var (svg, ev) := ModelStage(content, args, svc);
      if svg.Failure? then Conversion(Failure(svg.error), ev)
      else
        var (png, ev2) := PngStage(svg.value, args, svc);
        Conversion(png, ev + ev2)
    case TikzHtml =>
      var (svg, ev) := ModelStage(content, args, svc);
      Conversion(if svg.Success? then Success(TextFile(SvgUtils.Svg2Html(svg.value))) else Failure(svg.error), ev)
  }

  /** What a conversion can do: at most one model call, made first and
      with the request built from the input, then at most one render. */
  ghost predicate ConversionSteps(content: string, args: Args, c: Conversion) {
    && |c.events| <= 2
    && (forall k :: 0 <= k < |c.events| ==> c.events[k].ModelCall? || c.events[k].Render?)
    && (forall k :: 0 <= k < |c.events| && c.events[k].ModelCall? ==>
          k == 0 && c.events[k] == ModelCall(content, args.model, KeyOf(args)))
  }

  /** What a conversion does by mode: it calls the model exactly in a
      `tikz` mode; a successful PNG mode produces bytes and the others
      text. */
  ghost predicate ConversionKinds(args: Args, c: Conversion) {
    && ((exists k :: 0 <= k < |c.events| && c.events[k].ModelCall?) <==> UsesModel(args.mode))
    && (c.result.Success? ==> (c.result.value.BinaryFile? <==> args.mode == SvgPng || args.mode == TikzPng))
    && (c.result.Success? ==> (c.result.value.TextFile? <==> !(args.mode == SvgPng || args.mode == TikzPng)))
  }

  /** The conversion only consults the model and the renderer: the model
      exactly in a `tikz` mode, and first; PNG modes produce bytes and the
      others text. */
  lemma ConvertSteps(content: string, args: Args, svc: Services)
    ensures ConversionSteps(content, args, Convert(content, args, svc))
    ensures ConversionKinds(args, Convert(content, args, svc))
  {
    if UsesModel(args.mode) {
      ConvertStepsTikz(content, args, svc);
    } else {
      ConvertStepsSvg(content, args, svc);
    }
  }

  lemma ConvertStepsTikz(content: string, args: Args, svc: Services)
    requires UsesModel(args.mode)
    ensures ConversionSteps(content, args, Convert(content, args, svc))
    ensures ConversionKinds(args, Convert(content, args, svc))
  {
    match args.mode
    case TikzSvg => ConvertStepsTikzSvg(content, args, svc);
    case TikzPng => ConvertStepsTikzPng(content, args, svc);
    case TikzHtml => ConvertStepsTikzHtml(content, args, svc);
  }

  lemma ConvertStepsTikzSvg(content: string, args: Args, svc: Services)
    requires args.mode == TikzSvg
    ensures ConversionSteps(content, args, Convert(content, args, svc))
    ensures ConversionKinds(args, Convert(content, args, svc))
  {
    var c := Convert(content, args, svc);
    var call := ModelCall(content, args.model, KeyOf(args));
    assert c.events == [call];
    assert c.events[0].ModelCall?;
  }

  lemma ConvertStepsTikzPng(content: string, args: Args, svc: Services)
    requires args.mode == TikzPng
    ensures ConversionSteps(content, args, Convert(content, args, svc))
    ensures ConversionKinds(args, Convert(content, args, svc))
  {
    var c := Convert(content, args, svc);
    var call := ModelCall(content, args.model, KeyOf(args));
    var svg := ModelStage(content, args, svc).0;
    if svg.Success? {
      assert c.events == [call, Render(svg.value, args.scale)];
    } else {
      assert c.events == [call];
    }
    assert c.events[0].ModelCall?;
  }

  lemma ConvertStepsTikzHtml(content: string, args: Args, svc: Services)
    requires args.mode == TikzHtml
    ensures ConversionSteps(content, args, Convert(content, args, svc))
    ensures ConversionKinds(args, Convert(content, args, svc))
  {
    var c := Convert(content, args, svc);
    var call := ModelCall(content, args.model, KeyOf(args));
    assert c.events == [call];
    assert c.events[0].ModelCall?;
  }

  lemma ConvertStepsSvg(content: string, args: Args, svc: Services)
    requires !UsesModel(args.mode)
    ensures ConversionSteps(content, args, Convert(content, args, svc))
    ensures ConversionKinds(args, Convert(content, args, svc))
  {
  }

  /** A write to p succeeds: the system accepts it and p is not a directory. */
  predicate Writable(files: FileSystem, p: string, svc: Services) {
    svc.canWrite(p) && !(p in files && files[p].Directory?)
  }

  /** Whether the run passes both fatal pre-checks and computes its output
      path: the input exists, the path is derivable, and a model mode has
      a key. */
  predicate PassesChecks(files: FileSystem, args: Args) {
    && args.input in files
    && OutputPath(args).Success?
    && !(UsesModel(args.mode) && !Given(args.api))
  }

  /** One run of `main` on already-parsed arguments: existence check, output
      path, key check, read, conversion, write. */
  function Behaviour(files: FileSystem, args: Args, svc: Services): RunResult {
    if args.input !in files then RunResult(Exit(1), [], files)
    else match OutputPath(args)
      case Failure(e) => RunResult(Crash(e), [], files)
      case Success(out) =>
        if UsesModel(args.mode) && !Given(args.api) then RunResult(Exit(1), [], files)
        else match files[args.input]
          case TextFile(stored) =>
            var c := Convert(TranslateNewlines(stored), args, svc);
            var before := [ReadInput(args.input)] + c.events;
            if c.result.Failure? then RunResult(Exit(1), before, files)
            else if !Writable(files, out, svc) then RunResult(Exit(1), before, files)
            else RunResult(Exit(0), before + [WriteOutput(out, c.result.value)], files[out := c.result.value])
          case _ => RunResult(Crash(ReadError), [ReadInput(args.input)], files)
  }

  // ---------------------------------------------------------------------
  // Properties of a run
  // ---------------------------------------------------------------------

  /** A missing input ends the run with 1 before any read, model call or
      write; this check comes before the key check. */
  lemma MissingInputExits(files: FileSystem, args: Args, svc: Services)
    requires args.input !in files
    ensures Behaviour(files, args, svc) == RunResult(Exit(1), [], files)
  {
  }

  /** A model mode without a non-empty key ends the run with 1 before the
      input is read. */
  lemma MissingKeyExits(files: FileSystem, args: Args, svc: Services)
    requires args.input in files && OutputPath(args).Success?
    requires UsesModel(args.mode) && !Given(args.api)
    ensures Behaviour(files, args, svc) == RunResult(Exit(1), [], files)
  {
  }

  /** A run that fails a check does nothing: no step, no change. */
  lemma FailedChecksDoNothing(files: FileSystem, args: Args, svc: Services)
    requires !PassesChecks(files, args)
    ensures var b := Behaviour(files, args, svc);
      && b.events == [] && b.files == files
      && b.outcome == (if args.input in files && OutputPath(args).Failure? then Crash(OutputPath(args).error) else Exit(1))
  {
  }

  /** The tail of a run that passed its checks and read its input: the
      conversion's steps, then the write exactly when the conversion
      succeeded and the output may be written. */
  lemma ReadRun(files: FileSystem, args: Args, svc: Services)
    requires PassesChecks(files, args) && files[args.input].TextFile?
    ensures var b := Behaviour(files, args, svc);
      var c := Convert(TranslateNewlines(files[args.input].text), args, svc);
      var out := OutputPath(args).value;
      var written := c.result.Success? && Writable(files, out, svc);
      && b.outcome == (if written then Exit(0) else Exit(1))
      && b.events == [ReadInput(args.input)] + c.events + (if written then [WriteOutput(out, c.result.value)] else [])
      && b.files == (if written then files[out := c.result.value] else files)
  {
  }

  /** Nothing happens before both pre-checks pass, and the first thing that
      happens after they pass is the one read of the input. */
  lemma ChecksBeforeRead(files: FileSystem, args: Args, svc: Services)
    ensures var b := Behaviour(files, args, svc);
      && (|b.events| > 0 <==> PassesChecks(files, args))
      && (|b.events| > 0 ==> b.events[0] == ReadInput(args.input))
      && forall k :: 1 <= k < |b.events| ==> !b.events[k].ReadInput?
  {
    if !PassesChecks(files, args) {
      FailedChecksDoNothing(files, args, svc);
    } else if !files[args.input].TextFile? {
      UnreadableInputCrashes(files, args, svc);
    } else {
      ReadRun(files, args, svc);
      ConvertSteps(TranslateNewlines(files[args.input].text), args, svc);
    }
  }

  /** The model is consulted if, and only if, the mode starts with `tikz`
      (once the checks pass and the input is read), with the request built
      from the input's text. */
  lemma ModelCalledIffTikzMode(files: FileSystem, args: Args, svc: Services)
    ensures var b := Behaviour(files, args, svc);
      forall k :: 0 <= k < |b.events| && b.events[k].ModelCall? ==>
        && UsesModel(args.mode)
        && k == 1
        && b.events[k] == ModelCall(TranslateNewlines(files[args.input].text), args.model, args.api.value)
    ensures var b := Behaviour(files, args, svc);
      PassesChecks(files, args) && files[args.input].TextFile? && UsesModel(args.mode) ==>
        |b.events| > 1 && b.events[1].ModelCall?
  {
    if !PassesChecks(files, args) {
      FailedChecksDoNothing(files, args, svc);
    } else if !files[args.input].TextFile? {
      UnreadableInputCrashes(files, args, svc);
    } else {
      ReadRun(files, args, svc);
      ConvertSteps(TranslateNewlines(files[args.input].text), args, svc);
    }
  }

  /** The `svg2*` modes never reach the model: replacing it changes nothing
      about the run. */
  lemma SvgModesIgnoreModel(files: FileSystem, args: Args, svc: Services,
                            complete: TikzToSvg.ModelRequest -> Result<string, string>)
    requires !UsesModel(args.mode)
    ensures Behaviour(files, args, svc) == Behaviour(files, args, svc.(complete := complete))
  {
  }

  /** At most one file is written, it is the output path, it is the last
      step, and it happens exactly when the run returns 0. Every other run
      leaves the file system as it was. */
  lemma SingleWrite(files: FileSystem, args: Args, svc: Services)
    ensures var b := Behaviour(files, args, svc);
      && (forall k :: 0 <= k < |b.events| && b.events[k].WriteOutput? ==> k == |b.events| - 1)
      && (b.outcome == Exit(0) <==> |b.events| > 0 && b.events[|b.events| - 1].WriteOutput?)
      && (b.outcome == Exit(0) ==>
            && OutputPath(args).Success?
            && b.events[|b.events| - 1].path == OutputPath(args).value
            && b.files == files[OutputPath(args).value := b.events[|b.events| - 1].entry])
      && (b.outcome != Exit(0) ==> b.files == files)
  {
    if !PassesChecks(files, args) {
      FailedChecksDoNothing(files, args, svc);
    } else if !files[args.input].TextFile? {
      UnreadableInputCrashes(files, args, svc);
    } else {
      ReadRun(files, args, svc);
      ConvertSteps(TranslateNewlines(files[args.input].text), args, svc);
    }
  }

  /** `main` returns only 0 or 1; an exception escapes only from the two
      statements outside the `try`: deriving the default output path and
      reading the input. */
  lemma ExitCodes(files: FileSystem, args: Args, svc: Services)
    ensures var b := Behaviour(files, args, svc);
      && (b.outcome.Exit? ==> b.outcome.code == 0 || b.outcome.code == 1)
      && (b.outcome.Crash? <==>
            args.input in files
            && (OutputPath(args).Failure? || (PassesChecks(files, args) && !files[args.input].TextFile?)))
  {
    if !PassesChecks(files, args) {
      FailedChecksDoNothing(files, args, svc);
    } else if !files[args.input].TextFile? {
      UnreadableInputCrashes(files, args, svc);
    } else {
      ReadRun(files, args, svc);
    }
  }

  /** An unreadable input is not mapped to an exit code: the run stops at
      the read, with nothing else done. */
  lemma UnreadableInputCrashes(files: FileSystem, args: Args, svc: Services)
    requires PassesChecks(files, args) && !files[args.input].TextFile?
    ensures Behaviour(files, args, svc) == RunResult(Crash(ReadError), [ReadInput(args.input)], files)
  {
  }

  /** PNG modes write bytes; the SVG and HTML modes write text. */
  lemma OutputKind(files: FileSystem, args: Args, svc: Services)
    requires Behaviour(files, args, svc).outcome == Exit(0)
    ensures var b := Behaviour(files, args, svc);
      var e := b.events[|b.events| - 1].entry;
      (e.BinaryFile? <==> args.mode == SvgPng || args.mode == TikzPng)
      && (e.TextFile? <==> !(args.mode == SvgPng || args.mode == TikzPng))
  {
    ExitCodes(files, args, svc);
    ReadRun(files, args, svc);
    ConvertSteps(TranslateNewlines(files[args.input].text), args, svc);
  }

  /** A run that returns 0 passed both checks and read its input. */
  lemma SucceededPassedChecks(files: FileSystem, args: Args, svc: Services)
    requires Behaviour(files, args, svc).outcome == Exit(0)
    ensures PassesChecks(files, args) && files[args.input].TextFile?
  {
    if !PassesChecks(files, args) {
      FailedChecksDoNothing(files, args, svc);
    } else if !files[args.input].TextFile? {
      UnreadableInputCrashes(files, args, svc);
    }
  }

  /** What a successful run writes, mode by mode: `tikz2png` writes
      `svg2png(tikz2svg(content), scale)`, `tikz2html` writes
      `svg2html(tikz2svg(content))`, and the `svg2*` modes apply to the
      input's own text. */
  lemma WrittenOutput(files: FileSystem, args: Args, svc: Services)
    requires Behaviour(files, args, svc).outcome == Exit(0)
    ensures args.input in files && files[args.input].TextFile? && OutputPath(args).Success?
    ensures var content := TranslateNewlines(files[args.input].text);
      var out := OutputPath(args).value;
      var written := Behaviour(files, args, svc).files[out];
      var svg := TikzToSvg.Tikz2Svg(content, args.model, KeyOf(args), svc.complete);
      && (UsesModel(args.mode) ==> Given(args.api) && svg.Success?)
      && (args.mode == TikzSvg ==> written == TextFile(svg.value))
      && (args.mode == TikzPng ==> svc.render(svg.value, args.scale).Success?
                                   && written == BinaryFile(svc.render(svg.value, args.scale).value))
      && (args.mode == TikzHtml ==> written == TextFile(SvgUtils.Svg2Html(svg.value)))
      && (args.mode == SvgPng ==> svc.render(content, args.scale).Success?
                                  && written == BinaryFile(svc.render(content, args.scale).value))
      && (args.mode == SvgHtml ==> written == TextFile(SvgUtils.Svg2Html(content)))
  {
    SucceededPassedChecks(files, args, svc);
    ReadRun(files, args, svc);
    var c := Convert(TranslateNewlines(files[args.input].text), args, svc);
    assert Behaviour(files, args, svc).files[OutputPath(args).value] == c.result.value;
    match args.mode
    case TikzSvg =>
    case SvgPng =>
    case SvgHtml =>
    case TikzPng =>
    case TikzHtml =>
  }

  /** In `tikz2svg` mode the file written is exactly what `_extract_svg`
      recovers from the model's reply: trimmed, and containing `<svg`. */
  lemma TikzSvgWritesExtracted(files: FileSystem, args: Args, svc: Services)
    requires args.mode == TikzSvg && Behaviour(files, args, svc).outcome == Exit(0)
    ensures args.input in files && files[args.input].TextFile? && OutputPath(args).Success? && Given(args.api)
    ensures var out := OutputPath(args).value;
      out in Behaviour(files, args, svc).files && Behaviour(files, args, svc).files[out].TextFile?
    ensures var req := TikzToSvg.RequestFor(TranslateNewlines(files[args.input].text), args.model, args.api.value);
      var written := Behaviour(files, args, svc).files[OutputPath(args).value];
      && svc.complete(req).Success?
      && TikzToSvg.ExtractSvg(svc.complete(req).value) == Success(written.text)
      && NoOuterSpace(written.text) && Contains(written.text, TikzToSvg.SvgOpen)
  {
    WrittenOutput(files, args, svc);
  }

  /** In `tikz2html` mode the page written unwraps to exactly what
      `_extract_svg` recovers from the model's reply. */
  lemma TikzHtmlPageHoldsExtracted(files: FileSystem, args: Args, svc: Services)
    requires args.mode == TikzHtml && Behaviour(files, args, svc).outcome == Exit(0)
    ensures args.input in files && files[args.input].TextFile? && OutputPath(args).Success? && Given(args.api)
    ensures var out := OutputPath(args).value;
      out in Behaviour(files, args, svc).files && Behaviour(files, args, svc).files[out].TextFile?
    ensures var req := TikzToSvg.RequestFor(TranslateNewlines(files[args.input].text), args.model, args.api.value);
      var written := Behaviour(files, args, svc).files[OutputPath(args).value];
      var svg := SvgUtils.UnwrapHtml(written.text);
      && svc.complete(req).Success?
      && svg.Some?
      && TikzToSvg.ExtractSvg(svc.complete(req).value) == Success(svg.value)
      && NoOuterSpace(svg.value) && Contains(svg.value, TikzToSvg.SvgOpen)
  {
    WrittenOutput(files, args, svc);
    var content := TranslateNewlines(files[args.input].text);
    var svg := TikzToSvg.Tikz2Svg(content, args.model, KeyOf(args), svc.complete);
    SvgUtils.UnwrapWrap(svg.value);
  }

  // ---------------------------------------------------------------------
  // `main`, step by step, over a mutable file system
  // ---------------------------------------------------------------------

  /** The state `main` acts on: the file system and the steps taken so far. */
  class World {
    var files: FileSystem
    var trace: seq<Event>
    const services: Services

    constructor(files0: FileSystem, services0: Services)
      ensures files == files0 && trace == []
      ensures services == services0
    {
      files := files0;
      trace := [];
      services := services0;
    }

    /** `Path.exists()`. */
    method Exists(p: string) returns (b: bool)
      ensures b <==> p in files
    {
      b := p in files;
    }

    /** `Path.read_text(encoding="utf-8")`. */
    method ReadText(p: string) returns (r: Result<string, string>)
      requires p in files
      modifies this
      ensures files == old(files) && trace == old(trace) + [ReadInput(p)]
      ensures r == if files[p].TextFile? then Success(TranslateNewlines(files[p].text)) else Failure(ReadError)
    {
      trace := trace + [ReadInput(p)];
      r := if files[p].TextFile? then Success(TranslateNewlines(files[p].text)) else Failure(ReadError);
    }

    /** `tikz2svg(content, model, api)`. */
    method CallTikz2Svg(content: string, model: string, key: string) returns (r: Result<string, string>)
      modifies this
      ensures files == old(files) && trace == old(trace) + [ModelCall(content, model, key)]
      ensures r == TikzToSvg.Tikz2Svg(content, model, key, services.complete)
    {
      trace := trace + [ModelCall(content, model, key)];
      r := TikzToSvg.Tikz2Svg(content, model, key, services.complete);
    }

    /** `svg2png(svg, scale)`. */
    method CallSvg2Png(svg: string, scale: int) returns (r: Result<Entry, string>)
      modifies this
      ensures files == old(files) && trace == old(trace) + [Render(svg, scale)]
      ensures r == if services.render(svg, scale).Success? then Success(BinaryFile(services.render(svg, scale).value))
                   else Failure(services.render(svg, scale).error)
    {
      trace := trace + [Render(svg, scale)];
      var png := services.render(svg, scale);
      r := if png.Success? then Success(BinaryFile(png.value)) else Failure(png.error);
    }

    /** `write_text` / `write_bytes`: replaces what p held, or raises and
        changes nothing. */
    method Store(p: string, e: Entry) returns (ok: bool)
      modifies this
      ensures ok == Writable(old(files), p, services)
      ensures ok ==> files == old(files)[p := e] && trace == old(trace) + [WriteOutput(p, e)]
      ensures !ok ==> files == old(files) && trace == old(trace)
    {
      ok := Writable(files, p, services);
      if ok {
        files := files[p := e];
        trace := trace + [WriteOutput(p, e)];
      }
    }

    /** The `if`/`elif` chain inside the `try`, up to the write. */
    method Dispatch(content: string, args: Args) returns (result: Result<Entry, string>)
      modifies this
      ensures files == old(files)
      ensures result == Convert(content, args, services).result
      ensures trace == old(trace) + Convert(content, args, services).events
    {
      match args.mode
      case TikzSvg =>
        var svg := CallTikz2Svg(content, args.model, KeyOf(args));
        result := if svg.Success? then Success(TextFile(svg.value)) else Failure(svg.error);
      case SvgPng =>
        result := CallSvg2Png(content, args.scale);
      case SvgHtml =>
        result := Success(TextFile(SvgUtils.Svg2Html(content)));
      case TikzPng =>
        var svg := CallTikz2Svg(content, args.model, KeyOf(args));
        if svg.Failure? {
          result := Failure(svg.error);
        } else {
          result := CallSvg2Png(svg.value, args.scale);
        }
      case TikzHtml =>
        var svg := CallTikz2Svg(content, args.model, KeyOf(args));
        result := if svg.Success? then Success(TextFile(SvgUtils.Svg2Html(svg.value))) else Failure(svg.error);
    }

    /** `main`: the run it performs is the one Behaviour describes. */
    method Run(args: Args) returns (outcome: Outcome)
      modifies this
      ensures var b := Behaviour(old(files), args, services);
        outcome == b.outcome && files == b.files && trace == old(trace) + b.events
    {
      var present := Exists(args.input);
      if !present {
        return Exit(1);
      }
      var outputPath := OutputPath(args);
      if outputPath.Failure? {
        return Crash(outputPath.error);
      }
      if UsesModel(args.mode) && !Given(args.api) {
        return Exit(1);
      }
      outcome := ConvertAndWrite(args, outputPath.value);
    }

    /** From the read of the input on, once both checks have passed. */
    method ConvertAndWrite(args: Args, outputPath: string) returns (outcome: Outcome)
      requires PassesChecks(files, args) && OutputPath(args) == Success(outputPath)
      modifies this
      ensures var b := Behaviour(old(files), args, services);
        outcome == b.outcome && files == b.files && trace == old(trace) + b.events
    {
      ghost var files0, trace0 := files, trace;
      var content := ReadText(args.input);
      if content.Failure? {
        UnreadableInputCrashes(files0, args, services);
        return Crash(content.error);
      }
      ReadRun(files0, args, services);
      ghost var c := Convert(content.value, args, services);
      ghost var written := c.result.Success? && Writable(files0, outputPath, services);
      ghost var tail := if written then [WriteOutput(outputPath, c.result.value)] else [];
      outcome := DispatchAndStore(args, outputPath, content.value);
      ghost var b := Behaviour(files0, args, services);
      assert b.events == [ReadInput(args.input)] + c.events + tail;
      assert trace == trace0 + [ReadInput(args.input)] + c.events + tail;
      assert trace == trace0 + b.events;
    }

    /** The body of the `try`: convert, then write; any failure is 1. */
    method DispatchAndStore(args: Args, outputPath: string, content: string) returns (outcome: Outcome)
      modifies this
      ensures var c := Convert(content, args, services);
        var written := c.result.Success? && Writable(old(files), outputPath, services);
        && outcome == (if written then Exit(0) else Exit(1))
        && trace == old(trace) + c.events + (if written then [WriteOutput(outputPath, c.result.value)] else [])
        && files == (if written then old(files)[outputPath := c.result.value] else old(files))
    {
      var result := Dispatch(content, args);
      if result.Failure? {
        return Exit(1);
      }
      var ok := Store(outputPath, result.value);
      if !ok {
        return Exit(1);
      }
      return Exit(0);
    }
  }
}
