/** The deterministic SVG utilities: wrapping an SVG document in a
    standalone HTML page. Rasterising to PNG is done by an external
    renderer, which the command line takes as a parameter. */
module SvgUtils {
  import opened Wrappers
  import opened Text

  const Doctype: string := "<!DOCTYPE html>"
  const Title: string := "<title>TikZ Figure</title>"
  const HtmlClose: string := "</html>"

  /** From the doctype to the title. */
  const HeadOpen: string :=
    "\n"
    + "<html>\n"
    + "<head>\n"
    + "    <meta charset=\"UTF-8\">\n"
    + "    "

  /** From the title to the opening of the centring container. */
  const StyleAndBody: string :=
    "\n"
    + "    <style>\n"
    + "        body { display: flex; justify-content: center; align-items: center; min-height: 100vh; margin: 0; background: #f5f5f5; }\n"
    + "        .container { background: white; padding: 20px; border-radius: 8px; box-shadow: 0 2px 10px rgba(0,0,0,0.1); }\n"
    + "    </style>\n"
    + "</head>\n"
    + "<body>\n"
    + "    <div class=\"container\">"

  /** The page up to and including the opening of the container. */
  const HtmlPrefix: string := Doctype + HeadOpen + Title + StyleAndBody

  /** The page after the container's content; there is no final newline. */
  const HtmlSuffix: string := "</div>\n</body>\n" + HtmlClose

  /** `svg2html`: the SVG, verbatim, as the only content of the container
      of a fixed page. */
  function Svg2Html(svg: string): (r: string)
    ensures |r| == |HtmlPrefix| + |svg| + |HtmlSuffix|
    ensures StartsWith(r, HtmlPrefix) && EndsWith(r, HtmlSuffix)
    ensures r[|HtmlPrefix|..|r| - |HtmlSuffix|] == svg
  {
    var r := HtmlPrefix + svg + HtmlSuffix;
    assert r[..|HtmlPrefix|] == HtmlPrefix;
    assert r[|HtmlPrefix|..|r| - |HtmlSuffix|] == svg;
    assert r[|r| - |HtmlSuffix|..] == HtmlSuffix;
    r
  }

  /** The inverse of Svg2Html: the container's content of a page of that
      shape, and None for any other text. */
  function UnwrapHtml(html: string): (r: Option<string>)
    ensures r.Some? <==> |html| >= |HtmlPrefix| + |HtmlSuffix| && StartsWith(html, HtmlPrefix) && EndsWith(html, HtmlSuffix)
    ensures r.Some? ==> r.value == html[|HtmlPrefix|..|html| - |HtmlSuffix|]
  {
    if |html| >= |HtmlPrefix| + |HtmlSuffix| && StartsWith(html, HtmlPrefix) && EndsWith(html, HtmlSuffix)
    then Some(html[|HtmlPrefix|..|html| - |HtmlSuffix|])
    else None
  }

  /** Unwrapping a wrapped document gives the document back. */
  lemma UnwrapWrap(svg: string)
    ensures UnwrapHtml(Svg2Html(svg)) == Some(svg)
  {
  }

  /** Wrapping what was unwrapped gives the page back: every page with the
      fixed frame is the wrapping of exactly one document. */
  lemma WrapUnwrap(html: string)
    requires UnwrapHtml(html).Some?
    ensures Svg2Html(UnwrapHtml(html).value) == html
  {
    Reframe(HtmlPrefix, html, HtmlSuffix);
  }

  /** Different documents give different pages. */
  lemma Svg2HtmlInjective(s1: string, s2: string)
    requires Svg2Html(s1) == Svg2Html(s2)
    ensures s1 == s2
  {
    UnwrapWrap(s1);
    UnwrapWrap(s2);
  }

  /** The page is a complete HTML document titled "TikZ Figure". */
  lemma Svg2HtmlFrame(svg: string)
    ensures StartsWith(Svg2Html(svg), Doctype)
    ensures EndsWith(Svg2Html(svg), HtmlClose)
    ensures HasAt(Svg2Html(svg), Title, |Doctype + HeadOpen|)
  {
    PageShape(Doctype, HeadOpen, Title, StyleAndBody, svg, "</div>\n</body>\n", HtmlClose);
  }

  /** The layout of a page made of these pieces, whatever their text. */
  lemma PageShape(doctype: string, head: string, title: string, style: string,
                  svg: string, tail: string, close: string)
    ensures var page := (doctype + head + title + style) + svg + (tail + close);
      StartsWith(page, doctype) && EndsWith(page, close) && HasAt(page, title, |doctype + head|)
  {
    var rest := svg + (tail + close);
    HasAtJoin([], doctype, head + title + style);
    HasAtExtend([] + doctype + (head + title + style), doctype, 0, rest);
    HasAtJoin(doctype + head, title, style);
    HasAtExtend(doctype + head + title + style, title, |doctype + head|, rest);
    HasAtJoin((doctype + head + title + style) + svg + tail, close, []);
  }

  /** A string with a given frame is that frame around its middle. */
  lemma Reframe(pre: string, s: string, post: string)
    requires |s| >= |pre| + |post| && StartsWith(s, pre) && EndsWith(s, post)
    ensures pre + s[|pre|..|s| - |post|] + post == s
  {
    assert s == s[..|pre|] + s[|pre|..|s| - |post|] + s[|s| - |post|..];
  }

  /** Every occurrence of a pattern in the document survives in the page,
      shifted by the length of the prefix. */
  lemma Svg2HtmlKeeps(svg: string, pat: string, k: nat)
    requires HasAt(svg, pat, k)
    ensures HasAt(Svg2Html(svg), pat, |HtmlPrefix| + k)
  {
    var r := Svg2Html(svg);
    SliceHasAt(r, pat, |HtmlPrefix|, |r| - |HtmlSuffix|, k);
  }
}
