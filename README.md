# TikzConvertor, modelled in Dafny

TikzConvertor turns a TikZ picture into SVG by asking a language model, and it
turns SVG into PNG (through the `resvg` renderer) or into a standalone HTML page.
This project models three parts of it and proves properties about them:

* **`tikz2svg`** (`TikzToSvg.dfy`). It cuts the first
  `\begin{tikzpicture} … \end{tikzpicture}` block out of the input. It builds the
  chat request. It then recovers the SVG document from the model's reply with
  `_extract_svg`'s ordered chain: a ```` ```svg ```` fence, an ```` ```xml ````
  fence, a bare ```` ``` ```` fence, a direct `<svg … </svg>` span, and finally
  the whole reply if it starts with `<svg`.
  - Each regular expression is modelled as the search that Python's
    backtracking matcher performs for that one pattern. Examples are
    `LazySpan` for `A.*?B` under DOTALL, and `FenceSearch` for
    ```` ```TAG\s*(.*?)\s*``` ````.
  - Each search is proved against an independent description of the match
    `re.search` reports. For `A.*?B` this is the leftmost start, then the
    shortest extent. For the fences it is the leftmost start, then the
    greedy first `\s*`, then the shortest group.
* **`svg2html`** (`SvgUtils.dfy`). It is a fixed prefix, the SVG verbatim, and a
  fixed suffix. The f-string's doubled braces `{{ }}` appear in the constants as
  the single braces that Python emits. `UnwrapHtml` is its inverse, and is proved
  to be one in both directions.
* **`main`** (`Cli.dfy`, with `Paths.dfy` for the pathlib arithmetic):
  - the mode → extension table;
  - the default output path, which is `Path.with_suffix` on the input;
  - the two fatal pre-checks, in order;
  - the five-way dispatch;
  - the mapping of outcomes to exit codes.

  `Behaviour` is a pure description of one run over an abstract file system.
  `World` is a class whose `Run` method takes the same steps one at a time,
  updating a file-system field and a trace of observable events. `Run` is
  proved to do exactly what `Behaviour` describes. The lemmas about `Behaviour`
  state what the program promises: check order, when the model is called,
  the single write, and the exit codes.

The language model, the PNG renderer and the operating system's acceptance of
a write are parameters of the run (`Cli.Services`). Each is an arbitrary
function that may fail. Reading the input is a lookup in the file-system map.
A `TextFile` holds the text as stored. `read_text` opens the file in universal-newline
mode, so the content the run sees is `TranslateNewlines` of the stored text:
each `\r\n` and each lone `\r` becomes `\n`.
`Text.dfy` holds the pieces of Python's string behaviour used throughout:
`str.isspace`/`\s`, `in`, `startswith`, `endswith`, `strip` and the
newline translation of a text-mode read. `Wrappers.dfy`
holds `Option` and `Result`.

Three places where the code and a natural reading of the tool differ. The model
follows the code in all three:
- The code has no directory or batch mode, and never joins the output onto a
  directory. `--output` is used verbatim.
- In the `svg2*` modes, the input text goes to `svg2png`/`svg2html` unchecked.
  No SVG extraction is applied to it.
- The bare-fence pattern ```` ```\s*(.*?)\s*``` ```` does not skip a language
  tag. A reply ```` ```html ````, a newline, `<svg>…</svg>`, a newline and
  ```` ``` ```` yields `html`, a newline and `<svg>…</svg>`. That group contains
  `<svg`, so it is returned.

## Model

| member | source | states |
|---|---|---|
| Text.IsSpace | src/tikzconvertor/tikz2svg.py:64-67 | the characters `str.isspace()` and `\s` treat as whitespace: `\t` to `\r`, `\x1c` to space, and the Unicode spaces and separators (a definition; `Strip`, `GroupTrimmed` and `StripKeeps` use it) |
| Text.Strip | src/tikzconvertor/tikz2svg.py:67 | `str.strip()` leaves no leading or trailing whitespace and never lengthens the text |
| Text.StripNoOuterSpace | src/tikzconvertor/tikz2svg.py:67 | stripping text that has no outer whitespace returns it unchanged |
| Text.StripContains | src/tikzconvertor/tikz2svg.py:74-75 | whatever the stripped text contains, the original contains |
| Text.StripKeeps | src/tikzconvertor/tikz2svg.py:67 | stripping keeps every occurrence of a pattern that neither starts nor ends with whitespace, so a group containing `<svg` still does after `.strip()` |
| Text.LazySpan | src/tikzconvertor/tikz2svg.py:43 | the span reported for `open.*?close` under DOTALL is the leftmost-start, shortest match; it is exactly the first `open` followed by the first `close` after it; there is no span iff no match exists at all |
| Text.LazySpanDelimiters | src/tikzconvertor/tikz2svg.py:45 | the matched text starts with the opener and ends with the closer |
| Text.DelimitedEnds | src/tikzconvertor/tikz2svg.py:45 | any delimited stretch starts with the opener and ends with the closer |
| Text.TranslateNewlines | src/tikzconvertor/cli.py:40 | universal-newline reading never lengthens the text; its properties are the lemmas below |
| Text.TranslateLeavesNoCr | src/tikzconvertor/cli.py:40 | no `\r` is left in the text as read |
| Text.TranslatePrefix | src/tikzconvertor/cli.py:40 | a stretch without `\r` is read as it is stored, and the rest is read on from there |
| Text.TranslateIdentity | src/tikzconvertor/cli.py:40 | a text without `\r` reads back exactly as stored |
| Text.TranslateCrLf | src/tikzconvertor/cli.py:40 | a `\r\n` line ending reads back as `\n` |
| Text.TranslateLoneCrHead | src/tikzconvertor/cli.py:40 | a text that starts with a `\r` not followed by `\n` reads as `\n`, then its rest |
| Text.TranslateLoneCr | src/tikzconvertor/cli.py:40 | a lone `\r`, one not followed by `\n`, reads back as `\n` |
| TikzToSvg.ExtractTikzBlock | src/tikzconvertor/tikz2svg.py:43-45 | with a begin/end pair, the code sent is the leftmost-shortest `\begin{tikzpicture}…\end{tikzpicture}` span, delimiters included; without one, the input is returned unchanged |
| TikzToSvg.RequestFor | src/tikzconvertor/tikz2svg.py:43-53 | the request for an input: the caller's model and key and the user prompt around the extracted block (a definition; `RequestCarriesBlock` and `Messages` state its content) |
| TikzToSvg.UserPrompt | src/tikzconvertor/tikz2svg.py:31-37 | the user prompt is the fixed head, the code verbatim, then the fixed tail |
| TikzToSvg.Messages | src/tikzconvertor/tikz2svg.py:50-53 | a request is sent as two messages: the system instruction, then the user prompt |
| TikzToSvg.RequestCarriesBlock | src/tikzconvertor/tikz2svg.py:43-53 | the request carries the caller's model and key, the fixed system prompt, and a user prompt that contains the extracted block and nothing else of the input |
| TikzToSvg.Tikz2Svg | src/tikzconvertor/tikz2svg.py:40-58 | succeeds iff the model call and the extraction succeed; on success the result is `ExtractSvg` of the reply, trimmed and containing `<svg`; the reply of a successful call always goes through `ExtractSvg`, so a failed extraction carries its ValueError message; a failed call is passed on |
| TikzToSvg.FenceAt | src/tikzconvertor/tikz2svg.py:64-65 | the backtracking match attempt at one opening fence: skip whitespace greedily, then stop the group at the first place a closing fence follows; what it reports starts at that fence and lies inside the text (`FenceAtSound` and `FenceAtComplete` state that it is the match `re` takes there) |
| TikzToSvg.FenceAtSound | src/tikzconvertor/tikz2svg.py:64-65 | what `FenceAt` reports is a match of the pattern at that fence, with the closing `\s*` taken greedily |
| TikzToSvg.FirstClose | src/tikzconvertor/tikz2svg.py:64-65 | the first position where the lazy group can stop: optional whitespace then a closing fence begins there, and at no earlier position |
| TikzToSvg.FenceAtComplete | src/tikzconvertor/tikz2svg.py:64-65 | any match of the pattern starting at a fence makes the search find one there, and the one found comes no later in backtracking order (greedy first `\s*`, then the shortest group) |
| TikzToSvg.FenceSearch | src/tikzconvertor/tikz2svg.py:65 | the scan for the leftmost opening fence at which a match succeeds: what it finds lies at or after the start and begins with the opening fence and tag, and it is the attempt `FenceAt` makes there |
| TikzToSvg.FenceSearchPreferred | src/tikzconvertor/tikz2svg.py:65 | the fence search returns a match of the pattern that no other match at or after the start position precedes, and returns nothing only when there is no match |
| TikzToSvg.FenceBody | src/tikzconvertor/tikz2svg.py:64-65 | the group is that of the match `re.search` reports; it exists iff the pattern matches somewhere; it has no outer whitespace |
| TikzToSvg.GroupTrimmed | src/tikzconvertor/tikz2svg.py:64-65 | the reported group cannot start or end with whitespace, since the surrounding `\s*` would have taken it |
| TikzToSvg.FenceStrategy | src/tikzconvertor/tikz2svg.py:65-67 | a fence pattern yields iff its leftmost match's group contains `<svg`, and then yields that group (stripping changes nothing); a later block is never examined |
| TikzToSvg.TryFences | src/tikzconvertor/tikz2svg.py:64-67 | the loop over the three patterns fails only if every pattern fails; any result is trimmed and contains `<svg` |
| TikzToSvg.DirectStrategy | src/tikzconvertor/tikz2svg.py:70-72 | the direct span is the leftmost-shortest `<svg…</svg>` match; it starts with `<svg` and ends with `</svg>`; it is absent iff no `<svg` has a `</svg>` after it |
| TikzToSvg.WholeStrategy | src/tikzconvertor/tikz2svg.py:74-75 | the last fallback yields the stripped reply exactly when that starts with `<svg` |
| TikzToSvg.ExtractSvg | src/tikzconvertor/tikz2svg.py:61-77 | every success is trimmed and contains `<svg`; every failure carries the ValueError message; a reply without `<svg` always fails |
| TikzToSvg.FirstSome | src/tikzconvertor/tikz2svg.py:64-75 | the first entry that yields; nothing iff no entry yields |
| TikzToSvg.ExtractSvgFirstSuccess | src/tikzconvertor/tikz2svg.py:61-77 | `_extract_svg` returns the first of its five strategies that yields, in the fixed order; it fails with "Could not extract SVG from response" when none does |
| TikzToSvg.FencedSvgRoundTrip | src/tikzconvertor/tikz2svg.py:64-67 | an SVG document (trimmed, with no triple backtick inside) in a ```` ```svg ```` fence on lines of its own is recovered verbatim |
| SvgUtils.Svg2Html | src/tikzconvertor/svg_utils.py:11-26 | the page is the fixed prefix, the SVG verbatim, then the fixed suffix |
| SvgUtils.UnwrapHtml | src/tikzconvertor/svg_utils.py:13-26 | exactly the pages with the fixed frame unwrap, to the text between prefix and suffix |
| SvgUtils.UnwrapWrap | src/tikzconvertor/svg_utils.py:13-26 | unwrapping a wrapped SVG gives it back |
| SvgUtils.WrapUnwrap | src/tikzconvertor/svg_utils.py:13-26 | every framed page is the wrapping of what it unwraps to |
| SvgUtils.Svg2HtmlInjective | src/tikzconvertor/svg_utils.py:13-26 | different SVG inputs give different pages |
| SvgUtils.Svg2HtmlFrame | src/tikzconvertor/svg_utils.py:13-26 | the page starts with `<!DOCTYPE html>`, ends with `</html>`, and has the `<title>TikZ Figure</title>` element where the template puts it |
| SvgUtils.Svg2HtmlKeeps | src/tikzconvertor/svg_utils.py:24 | every occurrence of a pattern in the SVG appears in the page unchanged, shifted by the prefix length |
| Cli.ModeNameInjective | src/tikzconvertor/cli.py:14-15 | the five mode names are distinct |
| Cli.Extension | src/tikzconvertor/cli.py:31-32 | `ext_map` has every mode; `.png` exactly for the two PNG modes, `.html` exactly for the two HTML modes, `.svg` exactly for `tikz2svg` |
| Cli.ExtensionValid | src/tikzconvertor/cli.py:31-33 | every mapped extension is a valid suffix for `with_suffix` |
| Cli.UsesModelIsTikzPrefix | src/tikzconvertor/cli.py:36 | the modes that use the model are exactly those whose name starts with `tikz` |
| Paths.Name | src/tikzconvertor/cli.py:33 | `PurePath.name`: the final component, which contains no separator; `NameOfDot` and `NameOfDirectory` show it empty for `.` and for the root |
| Paths.NameOfDot | src/tikzconvertor/cli.py:33 | the component `.` has the empty name, in any directory |
| Paths.NameOfDirectory | src/tikzconvertor/cli.py:33 | a path ending in a separator, such as the root `/`, has the empty name |
| Paths.Suffix | src/tikzconvertor/cli.py:33 | `PurePath.suffix`: a tail of the name that is empty or a dot followed by one or more characters, none of them a dot; it is non-empty exactly when the name's last dot is neither its first nor its last character, so `.bashrc` and `a.` have none |
| Paths.Stem | src/tikzconvertor/cli.py:33 | `PurePath.stem`: the stem followed by the suffix is the name |
| Paths.StemWithoutSuffix | src/tikzconvertor/cli.py:33 | a name without a suffix is its own stem |
| Paths.WithSuffix | src/tikzconvertor/cli.py:33 | `with_suffix` raises exactly when the name is empty; what it returns is stated by the lemmas below |
| Paths.WithSuffixSuffix | src/tikzconvertor/cli.py:33 | `with_suffix` keeps the directory part and the stem; the new name is the old stem followed by the requested suffix, which is its suffix |
| Paths.WithSuffixAppends | src/tikzconvertor/cli.py:33 | a name without a suffix gets the requested suffix appended |
| Paths.WithSuffixReplacesSuffix | src/tikzconvertor/cli.py:33 | a name with a suffix has it cut off and the requested suffix put in its place |
| Paths.WithSuffixReplaces | src/tikzconvertor/cli.py:33 | a bare file name with a suffix gets that suffix replaced, not extended |
| Paths.WithSuffixNoDot | src/tikzconvertor/cli.py:33 | a name without any dot, in any directory, gets the requested suffix appended |
| Paths.DiagramSuffix | src/tikzconvertor/cli.py:33 | `diagram.tex` with suffix `.png` becomes `diagram.png` |
| Paths.MakefileSuffix | src/tikzconvertor/cli.py:33 | `out/Makefile` with suffix `.svg` becomes `out/Makefile.svg` |
| Cli.Given | src/tikzconvertor/cli.py:33-36 | Python truthiness of `args.output` and `args.api`: present and not empty (a definition; `OutputPath`, `MissingKeyExits` and `ExitCodes` state its consequences) |
| Cli.OutputPath | src/tikzconvertor/cli.py:33 | `--output` verbatim when given and non-empty; otherwise the input with the mode's extension as suffix |
| Cli.DefaultOutputPath | src/tikzconvertor/cli.py:33 | the default output keeps the input's directory and stem, and its name is that stem followed by the mode's extension, which is its suffix |
| Cli.DotInputHasNoDefault | src/tikzconvertor/cli.py:33 | for the input `.` without `--output`, `OutputPath` fails (`with_suffix` raises); by `ExitCodes` such a run ends in an escaping exception |
| Cli.DiagramExample | src/tikzconvertor/cli.py:33 | `diagram.tex` in `tikz2png` mode without `--output` is written to `diagram.png` |
| Cli.MakefileExample | src/tikzconvertor/cli.py:33 | `out/Makefile`, which has no suffix, in `tikz2svg` mode without `--output` is written to `out/Makefile.svg` |
| Cli.Convert | src/tikzconvertor/cli.py:42-63 | the `if`/`elif` chain on the mode as a value: the result and the model calls and renders it makes (a definition; `ConvertSteps`, `WrittenOutput` and `OutputKind` state its properties) |
| Cli.ConvertSteps | src/tikzconvertor/cli.py:42-63 | a conversion makes at most one model call, first, with the input, model and key (`ConversionSteps`); it calls the model iff the mode is a `tikz` mode, and PNG modes produce bytes and the others text (`ConversionKinds`) |
| Cli.Behaviour | src/tikzconvertor/cli.py:25-70 | one run of `main` as a value: existence check, output path, key check, read, conversion, write (a definition; the lemmas below state what it promises, and `World.Run` is proved to follow it) |
| Cli.MissingInputExits | src/tikzconvertor/cli.py:25-28 | a missing input returns 1 with no step taken and nothing changed |
| Cli.MissingKeyExits | src/tikzconvertor/cli.py:35-38 | a `tikz` mode with an absent or empty key returns 1 before the read, with nothing changed |
| Cli.FailedChecksDoNothing | src/tikzconvertor/cli.py:25-38 | a run that fails a check takes no step and changes nothing; it returns 1, or raises when the default output path cannot be formed |
| Cli.ReadRun | src/tikzconvertor/cli.py:40-70 | after the checks and the read, the run returns 0 and writes the result exactly when the conversion succeeds and the path is writable; otherwise it returns 1 and changes nothing |
| Cli.ChecksBeforeRead | src/tikzconvertor/cli.py:25-40 | some step is taken iff both checks pass; the first step is then the single read of the input |
| Cli.ModelCalledIffTikzMode | src/tikzconvertor/cli.py:36-63 | every model call is made in a `tikz` mode, right after the read, with the input's text as read and the given key; a `tikz` run that reads its input calls the model |
| Cli.SvgModesIgnoreModel | src/tikzconvertor/cli.py:47-53 | in the `svg2*` modes, replacing the model changes nothing about the run |
| Cli.SingleWrite | src/tikzconvertor/cli.py:42-70 | at most one write, the last step, to the output path; it happens iff the run returns 0; every other run leaves the files unchanged |
| Cli.ExitCodes | src/tikzconvertor/cli.py:26-70 | `main` returns only 0 or 1; an exception escapes iff the default path cannot be formed or the input cannot be read as text |
| Cli.UnreadableInputCrashes | src/tikzconvertor/cli.py:40 | a read error is not mapped to an exit code: the run stops at the read with nothing changed |
| Cli.OutputKind | src/tikzconvertor/cli.py:45-63 | a successful PNG-mode run writes bytes; the SVG and HTML modes write text |
| Cli.SucceededPassedChecks | src/tikzconvertor/cli.py:26-40 | a run that returns 0 passed both checks and read a text file |
| Cli.WrittenOutput | src/tikzconvertor/cli.py:43-63 | what a successful run writes, by mode: `tikz2svg(content)`, `svg2png(content)`, `svg2html(content)`, `svg2png(tikz2svg(content))`, `svg2html(tikz2svg(content))` |
| Cli.TikzSvgWritesExtracted | src/tikzconvertor/cli.py:43-45 | in `tikz2svg` mode the file written is what `_extract_svg` recovers from the reply to the request built from the input: trimmed and containing `<svg` |
| Cli.TikzHtmlPageHoldsExtracted | src/tikzconvertor/cli.py:60-63 | in `tikz2html` mode the page written unwraps to exactly what `_extract_svg` recovers from the reply |
| Cli.World.Exists | src/tikzconvertor/cli.py:26 | `exists()` is membership in the file system |
| Cli.World.ReadText | src/tikzconvertor/cli.py:40 | the read is recorded; it yields the newline-translated text of a text file and an error for anything else |
| Cli.World.CallTikz2Svg | src/tikzconvertor/cli.py:44 | one model call is recorded, and the result is `tikz2svg`'s |
| Cli.World.CallSvg2Png | src/tikzconvertor/cli.py:48 | one render is recorded; the result is the renderer's bytes, or its error |
| Cli.World.Store | src/tikzconvertor/cli.py:45 | a write replaces what the path held and is recorded when the path is writable; otherwise nothing changes |
| Cli.World.Dispatch | src/tikzconvertor/cli.py:42-63 | the `if`/`elif` chain yields the conversion's result and records its steps |
| Cli.World.DispatchAndStore | src/tikzconvertor/cli.py:42-70 | the body of the `try`: convert, then write; 0 only after a write, 1 when either fails |
| Cli.World.ConvertAndWrite | src/tikzconvertor/cli.py:40-70 | from the read on, the run does what `Behaviour` describes |
| Cli.World.Run | src/tikzconvertor/cli.py:25-70 | `main` on parsed arguments: the outcome, the new file system and the steps taken are exactly those of `Behaviour` |

## Left out

- Argument parsing and every `print` (cli.py lines 13-23, 27, 37, 65 and 69). A run starts from parsed `Args`, with the defaults `DefaultModel` and `DefaultScale` filled in. The mode is one of the five choices.
- The `litellm.completion` call is the parameter `Services.complete`, an arbitrary function from `ModelRequest` to a reply or an error. The request carries the model, the key and the user prompt. The system prompt is the same for every call, so `Messages` adds it. `temperature=0.1` and `max_tokens=8192` are not modelled, because they are the same for every call and only affect the model's choice of reply.
- A reply whose content is `None` makes `_extract_svg` raise a `TypeError` inside the `try`. The model folds it into a failing `Services.complete`, which gives the same exit code.
- `svg2png`/`resvg_py.svg_to_bytes` is the parameter `Services.render`. It is an arbitrary, possibly failing producer of bytes from the SVG text and the scale.
- Real file-system I/O. The file system is a map from path to entry. `Services.canWrite` says whether the operating system accepts a write to a path, for example whether its parent directory exists. A write that is refused raises inside the `try` and changes nothing. A partly written file is not modelled.
- Decoding. A file whose bytes are not UTF-8 is a `BinaryFile` and is never read as text. A `TextFile` holds the decoded text as stored; the newline translation of the read is modelled, the UTF-8 decoding is not.
- Writing text. `write_text` is taken on POSIX, where `\n` is written unchanged. A written `TextFile` that holds a `\r` would read back with that `\r` translated. Reading a directory or a `BinaryFile` raises outside the `try`, which the model records as `Crash`.
- Paths are taken to be in the normal form pathlib gives them: no trailing or doubled separators, no `.` components. `WithSuffix` uses the suffix rule of Python 3.8–3.13: a name whose last dot is its first or its last character has no suffix. Windows drives are not modelled.
- The message of an exception that escapes `main` is abstract text. The model says only where such an exception can arise.
- The source's regular expressions are modelled as their own patterns, not through a general regex engine.
- Svg2Html: its determinism is not a separate lemma. It is a Dafny function, so equal inputs give equal pages by construction.
