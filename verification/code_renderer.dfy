/**
  The `renderer.code` override handed to the markdown renderer: a fenced
  block whose language is exactly `mermaid` becomes a `mermaid`-classed
  container holding the block's raw text, for the diagram engine to draw in
  the browser; any other block goes to the renderer's own `code` method.
 */
module CodeRenderer {
  import opened Options

  /** The language tag that selects the diagram container; compared case-sensitively. */
  const MermaidLang: string := "mermaid"

  const MermaidOpen: string := "<div class=\"mermaid\">"
  const MermaidClose: string := "</div>"

  /**
    The renderer's original `code(code, language, escaped)`; `language` is
    `None` when the fence carries no tag. Its output is not visible here.
   */
  type CodeFallback = (string, Option<string>, bool) -> string

  /**
    Reads a diagram container back: the text between the opening and the
    closing tag, or `None` when `html` is not shaped like one.
   */
  function MermaidSource(html: string): (src: Option<string>)
    ensures src.Some? ==> html == MermaidOpen + src.value + MermaidClose
  {
    if |html| >= |MermaidOpen| + |MermaidClose|
       && html[..|MermaidOpen|] == MermaidOpen
       && html[|html| - |MermaidClose|..] == MermaidClose
    then
      var src := html[|MermaidOpen|..|html| - |MermaidClose|];
      assert html == html[..|MermaidOpen|] + src + html[|html| - |MermaidClose|..];
      Some(src)
    else None
  }

  /** `renderer.code` as overridden: a diagram container for `mermaid`, the original otherwise. */
  function RenderCode(code: string, language: Option<string>, escaped: bool, original: CodeFallback)
    : (html: string)
    ensures language == Some(MermaidLang) ==> MermaidSource(html) == Some(code)
    ensures language != Some(MermaidLang) ==> html == original(code, language, escaped)
  {
    if language == Some(MermaidLang) then
      var html := MermaidOpen + code + MermaidClose;
      assert html[..|MermaidOpen|] == MermaidOpen;
      assert html[|html| - |MermaidClose|..] == MermaidClose;
      assert html[|MermaidOpen|..|html| - |MermaidClose|] == code;
      html
    else original(code, language, escaped)
  }

  /**
    A diagram block's output is exactly opening tag, raw text, closing tag:
    the text is passed through unescaped and the fallback is never consulted.
   */
  lemma MermaidPassthrough(code: string, escaped: bool, original: CodeFallback, other: CodeFallback)
    ensures RenderCode(code, Some(MermaidLang), escaped, original) == MermaidOpen + code + MermaidClose
    ensures RenderCode(code, Some(MermaidLang), escaped, original) == RenderCode(code, Some(MermaidLang), escaped, other)
  {
    var html := RenderCode(code, Some(MermaidLang), escaped, original);
    var html' := RenderCode(code, Some(MermaidLang), escaped, other);
    assert MermaidSource(html) == Some(code);
    assert MermaidSource(html') == Some(code);
  }

  /** The tag test is case-sensitive: `Mermaid` is an ordinary code block. */
  lemma CapitalisedTagFallsBack(code: string, escaped: bool, original: CodeFallback)
    ensures RenderCode(code, Some("Mermaid"), escaped, original) == original(code, Some("Mermaid"), escaped)
  {
    assert "Mermaid" != MermaidLang by {
      assert "Mermaid"[0] != MermaidLang[0];
    }
  }

  /**
    The diagram container for `graph TD; A-->B` holds that text verbatim,
    the `>` included: the override does no HTML escaping.
   */
  lemma DiagramExample(escaped: bool, original: CodeFallback)
    ensures RenderCode("graph TD; A-->B", Some(MermaidLang), escaped, original)
         == "<div class=\"mermaid\">graph TD; A-->B</div>"
  {
    MermaidPassthrough("graph TD; A-->B", escaped, original, original);
  }
}
