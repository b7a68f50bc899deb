/** The TikZ-to-SVG stage: isolate the `tikzpicture` environment, ask the
    language model for a translation, and recover the SVG document from the
    model's reply with an ordered chain of extraction strategies. The model
    itself is an opaque, possibly failing function from request to reply. */
module TikzToSvg {
  import opened Wrappers
  import opened Text

  // ---------------------------------------------------------------------
  // Isolating the tikzpicture environment
  // ---------------------------------------------------------------------

  const BeginTikz: string := "\\begin{tikzpicture}"
  const EndTikz: string := "\\end{tikzpicture}"

  /** The code sent to the model: the first `\begin{tikzpicture}` through the
      first `\end{tikzpicture}` after it, delimiters included; the input
      unchanged when it has no such pair. */
  function ExtractTikzBlock(code: string): (r: string)
    ensures (exists p: nat, e: nat :: Delimited(code, BeginTikz, EndTikz, p, e)) ==>
              exists p: nat, e: nat :: LeftmostShortest(code, BeginTikz, EndTikz, p, e) && r == code[p..e]
    ensures (exists p: nat, e: nat :: Delimited(code, BeginTikz, EndTikz, p, e)) ==>
              StartsWith(r, BeginTikz) && EndsWith(r, EndTikz)
    ensures (forall p: nat, e: nat :: !Delimited(code, BeginTikz, EndTikz, p, e)) ==> r == code
  {
    match LazySpan(code, BeginTikz, EndTikz)
    case None => code
    case Some(sp) =>
      LazySpanDelimiters(code, BeginTikz, EndTikz);
      assert LeftmostShortest(code, BeginTikz, EndTikz, sp.start, sp.end);
      code[sp.start..sp.end]
  }

  // ---------------------------------------------------------------------
  // The model request
  // ---------------------------------------------------------------------

  /** The fixed system instruction. */
  const SystemPrompt: string :=
    "You are a TikZ to SVG converter. Convert LaTeX TikZ code to equivalent SVG code.\n"
    + "\n"
    + "## TikZ to SVG Mapping\n"
    + "\n"
    + "| TikZ | SVG |\n"
    + "|------|-----|\n"
    + "| node (circle) | <circle> + <text> |\n"
    + "| node (rectangle) | <rect> + <text> |\n"
    + "| \\draw line | <line> or <path> |\n"
    + "| \\draw arrow | <line> + marker-end |\n"
    + "| fill color | fill attribute |\n"
    + "| draw color | stroke attribute |\n"
    + "| thick/thin | stroke-width |\n"
    + "| foreach loop | expand into multiple elements |\n"
    + "| scope with xshift | transform=\"translate(x,0)\" |\n"
    + "\n"
    + "## Rules\n"
    + "\n"
    + "1. Output ONLY valid SVG code, no explanations\n"
    + "2. Use appropriate viewBox\n"
    + "3. For Chinese text, use font-family=\"sans-serif\"\n"
    + "4. Define arrowhead markers in <defs>\n"
    + "5. TikZ y-axis points up, SVG y-axis points down - flip accordingly\n"
    + "6. TikZ uses cm; multiply by 35 for pixels"

  const UserPromptHead: string := "Convert this TikZ code to SVG:\n\n```latex\n"
  const UserPromptTail: string := "\n```\n\nOutput ONLY the SVG code."

  /** The user instruction: the template with the code substituted once,
      verbatim (`str.format` does not reinterpret the argument). */
  function UserPrompt(tikzCode: string): (r: string)
    ensures HasAt(r, tikzCode, |UserPromptHead|)
    ensures StartsWith(r, UserPromptHead) && EndsWith(r, UserPromptTail)
  {
    var r := UserPromptHead + tikzCode + UserPromptTail;
    assert r[|UserPromptHead|..|UserPromptHead| + |tikzCode|] == tikzCode;
    assert r[..|UserPromptHead|] == UserPromptHead;
    assert r[|r| - |UserPromptTail|..] == UserPromptTail;
    r
  }

  /** One chat-completion call: model identifier, credential, and the code
      the user message is built from. The system message is the same for
      every call, so the request does not carry it; Messages gives both. */
  datatype ModelRequest = ModelRequest(model: string, apiKey: string, user: string)

  /** A chat message: a role and its text. */
  datatype Message = Message(role: string, content: string)

  /** The messages sent with a request: the fixed system instruction, then
      the user instruction. */
  function Messages(req: ModelRequest): (r: seq<Message>)
    ensures |r| == 2 && r[0].role == "system" && r[1].role == "user"
    ensures r[1].content == req.user
  {
    [Message("system", SystemPrompt), Message("user", req.user)]
  }

  /** The request `tikz2svg` sends for the given input. */
  function RequestFor(code: string, model: string, apiKey: string): ModelRequest {
    ModelRequest(model, apiKey, UserPrompt(ExtractTikzBlock(code)))
  }

  /** The request carries the isolated block, and only the block: whatever
      surrounds the tikzpicture environment is not sent. */
  lemma RequestCarriesBlock(code: string, model: string, apiKey: string)
    ensures var req := RequestFor(code, model, apiKey);
      && req.model == model && req.apiKey == apiKey
      && Messages(req)[0].content == SystemPrompt
      && Messages(req)[1].content == UserPromptHead + ExtractTikzBlock(code) + UserPromptTail
      && Contains(Messages(req)[1].content, ExtractTikzBlock(code))
  {
    var block := ExtractTikzBlock(code);
    assert HasAt(UserPrompt(block), block, |UserPromptHead|);
  }

  /** `tikz2svg`: one model call with the isolated block, then SVG extraction
      from the reply. A failing model call fails the conversion with the
      collaborator's message. */
  function Tikz2Svg(code: string, model: string, apiKey: string,
                    complete: ModelRequest -> Result<string, string>): (r: Result<string, string>)
    ensures r.Success? <==>
              complete(RequestFor(code, model, apiKey)).Success?
              && ExtractSvg(complete(RequestFor(code, model, apiKey)).value).Success?
    ensures complete(RequestFor(code, model, apiKey)).Success? ==>
              r == ExtractSvg(complete(RequestFor(code, model, apiKey)).value)
    ensures r.Success? ==> NoOuterSpace(r.value) && Contains(r.value, SvgOpen)
    ensures complete(RequestFor(code, model, apiKey)).Failure? ==>
              r == Failure(complete(RequestFor(code, model, apiKey)).error)
  {
    match complete(RequestFor(code, model, apiKey))
    case Failure(e) => Failure(e)
    case Success(reply) => ExtractSvg(reply)
  }

  // ---------------------------------------------------------------------
  // Fenced code blocks: the pattern ```TAG\s*(.*?)\s*``` under DOTALL
  // ---------------------------------------------------------------------

  const Fence: string := "```"
  const SvgOpen: string := "<svg"
  const SvgClose: string := "</svg>"
  const NoSvgMessage: string := "Could not extract SVG from response"

  /** The fence tags tried, in order: `svg`, `xml`, then an untagged fence. */
  const FenceTags: seq<string> := ["svg", "xml", ""]

  /** A match of ```TAG\s*(.*?)\s*``` in s: the opening fence and tag at p,
      the first `\s*` over [p + |opener|, i), the group over [i, g), the
      second `\s*` over [g, j), the closing fence at j. */
  predicate FenceMatch(s: string, tag: string, p: nat, i: nat, g: nat, j: nat) {
    && p + |Fence + tag| <= i <= g <= j <= |s|
    && HasAt(s, Fence + tag, p)
    && AllSpace(s, p + |Fence + tag|, i)
    && AllSpace(s, g, j)
    && HasAt(s, Fence, j)
  }

  /** The match `re.search` reports: the leftmost start; at that start the
      greedy first `\s*` takes as much as it can, and then the lazy group
      is as short as it can be. The second `\s*` is then forced. */
  ghost predicate PreferredFenceMatch(s: string, tag: string, p: nat, i: nat, g: nat) {
    && g <= |s|
    && FenceMatch(s, tag, p, i, g, SkipSpace(s, g))
    && forall p': nat, i': nat, g': nat, j': nat :: FenceMatch(s, tag, p', i', g', j') ==>
         p < p' || (p == p' && (i' < i || (i' == i && g <= g')))
  }

  /** From position k, optional whitespace and then a closing fence. */
  predicate ClosesAt(s: string, k: nat)
    requires k <= |s|
  {
    HasAt(s, Fence, SkipSpace(s, k))
  }

  /** The first position at or after g where the lazy group can stop. */
  function FirstClose(s: string, g: nat): (r: Option<nat>)
    requires g <= |s|
    ensures r.Some? ==> g <= r.value <= |s| && ClosesAt(s, r.value)
    ensures r.Some? ==> forall k :: g <= k < r.value ==> !ClosesAt(s, k)
    ensures r.None? ==> forall k :: g <= k <= |s| ==> !ClosesAt(s, k)
    decreases |s| - g
  {
    if ClosesAt(s, g) then Some(g)
    else if g < |s| then FirstClose(s, g + 1)
    else None
  }

  /** Where a fence match starts, and where its group begins and ends. */
  datatype FenceHit = FenceHit(start: nat, bodyStart: nat, bodyEnd: nat)

  /** The match at a given opening fence, if there is one. */
  function FenceAt(s: string, tag: string, p: nat): (r: Option<FenceHit>)
    requires HasAt(s, Fence + tag, p)
    ensures r.Some? ==> r.value.start == p && r.value.bodyStart <= r.value.bodyEnd <= |s|
  {
    var i := SkipSpace(s, p + |Fence + tag|);
    match FirstClose(s, i)
    case None => None
    case Some(g) => Some(FenceHit(p, i, g))
  }

  lemma FenceAtSound(s: string, tag: string, p: nat)
    requires HasAt(s, Fence + tag, p)
    requires FenceAt(s, tag, p).Some?
    ensures var h := FenceAt(s, tag, p).value;
      FenceMatch(s, tag, p, h.bodyStart, h.bodyEnd, SkipSpace(s, h.bodyEnd))
  {
  }

  /** Any match at p is no better, in backtracking order, than FenceAt's. */
  lemma FenceAtComplete(s: string, tag: string, p: nat, i': nat, g': nat, j': nat)
    requires FenceMatch(s, tag, p, i', g', j')
    ensures FenceAt(s, tag, p).Some?
    ensures var h := FenceAt(s, tag, p).value;
      i' < h.bodyStart || (i' == h.bodyStart && h.bodyEnd <= g')
  {
    var o := p + |Fence + tag|;
    var i := SkipSpace(s, o);
    assert i' <= i;
    assert s[j'] == s[j'..j' + |Fence|][0] == '`';
    SkipSpaceUnique(s, g', j');
    if g' >= i {
      assert ClosesAt(s, g');
    } else {
      assert AllSpace(s, g', i);
      SkipSpaceUnique(s, g', i);
      SkipSpaceUnique(s, i, i);
      assert ClosesAt(s, i);
    }
  }

  /** The leftmost fence match at or after `from`. */
  function FenceSearch(s: string, tag: string, from: nat): (r: Option<FenceHit>)
    ensures r.Some? ==> from <= r.value.start && HasAt(s, Fence + tag, r.value.start)
    ensures r.Some? ==> FenceAt(s, tag, r.value.start) == r
    decreases |s| - from
  {
    if from + |Fence + tag| > |s| then None
    else if HasAt(s, Fence + tag, from) && FenceAt(s, tag, from).Some? then FenceAt(s, tag, from)
    else FenceSearch(s, tag, from + 1)
  }

  /** FenceSearch finds exactly the match `re.search` reports among starts at
      or after `from`, and finds nothing only when there is no match. */
  lemma {:induction false} FenceSearchPreferred(s: string, tag: string, from: nat)
    ensures var r := FenceSearch(s, tag, from);
      r.Some? ==> FenceMatch(s, tag, r.value.start, r.value.bodyStart, r.value.bodyEnd,
                             SkipSpace(s, r.value.bodyEnd))
    ensures var r := FenceSearch(s, tag, from);
      r.Some? ==> forall p': nat, i': nat, g': nat, j': nat :: from <= p' && FenceMatch(s, tag, p', i', g', j') ==>
        r.value.start < p'
        || (r.value.start == p' && (i' < r.value.bodyStart || (i' == r.value.bodyStart && r.value.bodyEnd <= g')))
    ensures FenceSearch(s, tag, from).None? ==>
      forall p': nat, i': nat, g': nat, j': nat :: from <= p' ==> !FenceMatch(s, tag, p', i', g', j')
    decreases |s| - from
  {
    if from + |Fence + tag| > |s| {
    } else if HasAt(s, Fence + tag, from) && FenceAt(s, tag, from).Some? {
      FenceAtSound(s, tag, from);
      forall p': nat, i': nat, g': nat, j': nat | from <= p' && FenceMatch(s, tag, p', i', g', j')
        ensures var h := FenceAt(s, tag, from).value;
          h.start < p' || (h.start == p' && (i' < h.bodyStart || (i' == h.bodyStart && h.bodyEnd <= g')))
      {
        FenceAtComplete(s, tag, p', i', g', j');
      }
    } else {
      FenceSearchPreferred(s, tag, from + 1);
      forall p': nat, i': nat, g': nat, j': nat | from <= p' && FenceMatch(s, tag, p', i', g', j')
        ensures from + 1 <= p'
      {
        FenceAtComplete(s, tag, p', i', g', j');
      }
    }
  }

  /** The group of the match `re.search` reports for ```TAG\s*(.*?)\s*```.
      Because `\s*` on both sides is as wide as the match allows, the group
      never starts or ends with whitespace. */
  function FenceBody(s: string, tag: string): (r: Option<string>)
    ensures r.Some? ==> exists p: nat, i: nat, g: nat :: PreferredFenceMatch(s, tag, p, i, g) && r.value == s[i..g]
    ensures r.None? <==> forall p: nat, i: nat, g: nat, j: nat :: !FenceMatch(s, tag, p, i, g, j)
    ensures r.Some? ==> NoOuterSpace(r.value)
    ensures r.Some? ==> (Contains(r.value, SvgOpen) ==> Contains(s, SvgOpen))
  {
    FenceSearchPreferred(s, tag, 0);
    match FenceSearch(s, tag, 0)
    case None => None
    case Some(h) =>
      assert PreferredFenceMatch(s, tag, h.start, h.bodyStart, h.bodyEnd);
      GroupTrimmed(s, tag, h.start, h.bodyStart, h.bodyEnd);
      SliceContains(s, SvgOpen, h.bodyStart, h.bodyEnd);
      Some(s[h.bodyStart..h.bodyEnd])
  }

  /** The preferred group has no outer whitespace: a leading space would
      have been taken by the greedy first `\s*`, a trailing one would let the
      lazy group stop earlier. */
  lemma GroupTrimmed(s: string, tag: string, p: nat, i: nat, g: nat)
    requires PreferredFenceMatch(s, tag, p, i, g)
    ensures NoOuterSpace(s[i..g])
  {
    if i < g {
      var j := SkipSpace(s, g);
      var i1: nat, g1: nat := i + 1, g - 1;
      assert IsSpace(s[i]) ==> FenceMatch(s, tag, p, i1, g, j);
      assert IsSpace(s[g1]) ==> FenceMatch(s, tag, p, i, g1, j);
    }
  }

  /** The fence strategy for one tag: the leftmost match's group, stripped,
      if it mentions `<svg`; otherwise nothing, even when a later block with
      the same tag would. */
  function FenceStrategy(s: string, tag: string): (r: Option<string>)
    ensures r.Some? <==> FenceBody(s, tag).Some? && Contains(FenceBody(s, tag).value, SvgOpen)
    ensures r.Some? ==> r == FenceBody(s, tag)
    ensures r.Some? ==> NoOuterSpace(r.value) && Contains(r.value, SvgOpen) && Contains(s, SvgOpen)
  {
    match FenceBody(s, tag)
    case None => None
    case Some(b) =>
      if Contains(b, SvgOpen) then StripNoOuterSpace(b); Some(Strip(b)) else None
  }

  /** The fence strategies for tags[from..], in order (the `for` loop over
      the three patterns): the first one that yields wins. */
  function TryFences(s: string, tags: seq<string>, from: nat): (r: Option<string>)
    ensures r.None? ==> forall k :: from <= k < |tags| ==> FenceStrategy(s, tags[k]).None?
    ensures r.Some? ==> NoOuterSpace(r.value) && Contains(r.value, SvgOpen) && Contains(s, SvgOpen)
    decreases |tags| - from
  {
    if from >= |tags| then None
    else
      var here := FenceStrategy(s, tags[from]);
      if here.Some? then here else TryFences(s, tags, from + 1)
  }

  // ---------------------------------------------------------------------
  // The two fallbacks and the whole chain
  // ---------------------------------------------------------------------

  /** `(<svg[\s\S]*?</svg>)`: from the leftmost `<svg` that has a closer
      after it to the first `</svg>` after that, stripped. */
  function DirectStrategy(s: string): (r: Option<string>)
    ensures r.Some? ==> StartsWith(r.value, SvgOpen) && EndsWith(r.value, SvgClose)
    ensures r.Some? ==> exists p: nat, e: nat :: LeftmostShortest(s, SvgOpen, SvgClose, p, e) && r.value == s[p..e]
    ensures r.None? <==> forall p: nat, e: nat :: !Delimited(s, SvgOpen, SvgClose, p, e)
  {
    match LazySpan(s, SvgOpen, SvgClose)
    case None => None
    case Some(sp) =>
      var m := s[sp.start..sp.end];
      LazySpanDelimiters(s, SvgOpen, SvgClose);
      assert m[0] == m[..|SvgOpen|][0] == '<';
      assert m[|m| - 1] == m[|m| - |SvgClose|..][|SvgClose| - 1] == '>';
      StripNoOuterSpace(m);
      Some(Strip(m))
  }

  /** `text.strip().startswith('<svg')`: the whole reply, stripped. */
  function WholeStrategy(s: string): (r: Option<string>)
    ensures r.Some? <==> StartsWith(Strip(s), SvgOpen)
    ensures r.Some? ==> r.value == Strip(s)
  {
    var t := Strip(s);
    if StartsWith(t, SvgOpen) then Some(t) else None
  }

  /** `_extract_svg`: the three fence strategies, then the direct span, then
      the whole reply; otherwise a ValueError. */
  function ExtractSvg(text: string): (r: Result<string, string>)
    ensures r.Success? ==> NoOuterSpace(r.value) && Contains(r.value, SvgOpen)
    ensures r.Failure? ==> r.error == NoSvgMessage
    ensures !Contains(text, SvgOpen) ==> r == Failure(NoSvgMessage)
  {
    match TryFences(text, FenceTags, 0)
    case Some(b) => Success(b)
    case None =>
      match DirectStrategy(text)
      case Some(d) =>
        assert HasAt(text, SvgOpen, Find(text, SvgOpen, 0).value);
        assert HasAt(d, SvgOpen, 0);
        Success(d)
      case None =>
        match WholeStrategy(text)
        case Some(w) =>
          assert HasAt(w, SvgOpen, 0);
          StripContains(text, SvgOpen);
          Success(w)
        case None => Failure(NoSvgMessage)
  }

  /** The five strategies of `_extract_svg`, in the order it tries them. */
  function Strategies(text: string): seq<Option<string>> {
    [FenceStrategy(text, FenceTags[0]), FenceStrategy(text, FenceTags[1]), FenceStrategy(text, FenceTags[2]),
     DirectStrategy(text), WholeStrategy(text)]
  }

  /** The first entry of xs[from..] that yields: the reference meaning of
      "tried in order, the first success wins". */
  function FirstSome<T>(xs: seq<Option<T>>, from: nat): (r: Option<T>)
    ensures r.None? <==> forall k :: from <= k < |xs| ==> xs[k].None?
    ensures r.Some? ==> exists k :: from <= k < |xs| && xs[k] == r && forall j :: from <= j < k ==> xs[j].None?
    decreases |xs| - from
  {
    if from >= |xs| then None
    else if xs[from].Some? then xs[from]
    else FirstSome(xs, from + 1)
  }

  /** `_extract_svg` returns the first of its five strategies that yields,
      and fails with its ValueError message when none does. */
  lemma ExtractSvgFirstSuccess(text: string)
    ensures ExtractSvg(text) == match FirstSome(Strategies(text), 0)
                                case Some(v) => Success(v)
                                case None => Failure(NoSvgMessage)
  {
    ExtractSvgChain(text);
    FirstSomeOfFive(Strategies(text));
  }

  /** ExtractSvg, unfolded into its five strategies. */
  lemma ExtractSvgChain(text: string)
    ensures var st := Strategies(text);
      ExtractSvg(text) ==
        if st[0].Some? then Success(st[0].value)
        else if st[1].Some? then Success(st[1].value)
        else if st[2].Some? then Success(st[2].value)
        else if st[3].Some? then Success(st[3].value)
        else if st[4].Some? then Success(st[4].value)
        else Failure(NoSvgMessage)
  {
    assert TryFences(text, FenceTags, 3) == None;
  }

  /** FirstSome on five entries, unfolded. */
  lemma FirstSomeOfFive<T>(xs: seq<Option<T>>)
    requires |xs| == 5
    ensures FirstSome(xs, 0) ==
      if xs[0].Some? then xs[0] else if xs[1].Some? then xs[1] else if xs[2].Some? then xs[2]
      else if xs[3].Some? then xs[3] else xs[4]
  {
    assert FirstSome(xs, 5) == None;
  }

  /** Round trip: an SVG document (no surrounding whitespace, no triple
      backtick inside) wrapped in a ```svg fence is recovered verbatim. */
  lemma FencedSvgRoundTrip(svg: string)
    requires StartsWith(svg, SvgOpen) && NoOuterSpace(svg) && !Contains(svg, Fence)
    ensures ExtractSvg(Fenced(svg)) == Success(svg)
  {
    var text := Fenced(svg);
    var n := |svg|;
    FencedGroup(svg);
    assert HasAt(text, Fence + "svg", 0) by { assert text[0..6] == Fence + "svg"; }
    assert FenceSearch(text, FenceTags[0], 0) == Some(FenceHit(0, 7, n + 7));
    assert text[7..n + 7] == svg;
    assert HasAt(svg, SvgOpen, 0);
    assert FenceStrategy(text, FenceTags[0]) == Some(svg);
  }

  /** A document wrapped in an `svg` code fence, on lines of its own. */
  function Fenced(svg: string): (r: string)
    ensures |r| == |svg| + 11
    ensures StartsWith(r, Fence + "svg") && EndsWith(r, Fence)
    ensures r[7..|svg| + 7] == svg
    ensures r[6] == '\n' && r[|svg| + 7] == '\n'
  {
    var r := Fence + "svg\n" + svg + "\n" + Fence;
    assert r[0..6] == Fence + "svg";
    assert r[|svg| + 8..|svg| + 11] == Fence;
    r
  }

  /** In a fenced document the group begins after the newline that ends
      the opening line and first can stop before the closing newline. */
  lemma FencedGroup(svg: string)
    requires StartsWith(svg, SvgOpen) && NoOuterSpace(svg) && !Contains(svg, Fence)
    ensures SkipSpace(Fenced(svg), 6) == 7
    ensures FirstClose(Fenced(svg), 7) == Some(|svg| + 7)
  {
    var text := Fenced(svg);
    assert text[7] == svg[0] == svg[..4][0] == '<';
    SkipSpaceUnique(text, 6, 7);
    FencedClose(svg);
  }

  /** The lazy group of a fenced document stops at the document's end. */
  lemma FencedClose(svg: string)
    requires NoOuterSpace(svg) && !Contains(svg, Fence)
    ensures FirstClose(Fenced(svg), 7) == Some(|svg| + 7)
  {
    var text := Fenced(svg);
    var n := |svg|;
    SkipSpaceUnique(text, n + 7, n + 8);
    assert ClosesAt(text, n + 7);
    forall k | 7 <= k < n + 7
      ensures !ClosesAt(text, k)
    {
      NoCloseInside(svg, k);
    }
  }

  /** From inside the document, skipping spaces lands inside it, and no
      fence starts there. */
  lemma NoCloseInside(svg: string, k: nat)
    requires NoOuterSpace(svg) && !Contains(svg, Fence)
    requires 7 <= k < |svg| + 7
    ensures !ClosesAt(Fenced(svg), k)
  {
    var text := Fenced(svg);
    var n := |svg|;
    var j := SkipSpace(text, k);
    assert text[n + 6] == text[7..n + 7][n - 1] == svg[n - 1];
    assert !IsSpace(text[n + 6]);
    assert j <= n + 6;
    if j + 3 <= n + 7 {
      var d: nat := j - 7;
      assert text[j..j + 3] == text[7..n + 7][d..d + 3];
      assert !HasAt(svg, Fence, d);
    } else {
      NotFenceAt(text, j, n + 7 - j);
    }
  }

  /** A character other than a backtick inside s[j..j+3] rules out a fence at j. */
  lemma NotFenceAt(s: string, j: nat, m: nat)
    requires m < 3 && j + 3 <= |s|
    requires s[j + m] != '`'
    ensures !HasAt(s, Fence, j)
  {
    assert s[j..j + 3][m] != Fence[m];
  }
}
