/**
  The project cards of client/src/pages/MyProjects.tsx and Community.tsx
  render a project's code in an iframe with the selection script added
  (`buildPreviewHtml`; the two pages carry the same definition).
 */
module CardPreview {
  import opened Wrappers
  import opened Text

  const Placeholder: string := "<html><body style='background:#0f172a;color:#e2e8f0;font-family:Inter,sans-serif;padding:24px;'>No preview available.</body></html>"
  const BodyClose: string := "</body>"
  const HtmlClose: string := "</html>"

  /**
    Where the script belongs in a non-empty page: before the first
    `</body>`, else before the first `</html>`, else at the end.
   */
  function Anchor(html: string): (i: nat)
    ensures i <= |html|
    ensures Contains(html, BodyClose) ==> FirstAt(html, BodyClose, i)
    ensures !Contains(html, BodyClose) && Contains(html, HtmlClose) ==> FirstAt(html, HtmlClose, i)
    ensures !Contains(html, BodyClose) && !Contains(html, HtmlClose) ==> i == |html|
  {
    match IndexOf(html, BodyClose)
    case Some(i) => i
    case None =>
      match IndexOf(html, HtmlClose)
      case Some(j) => j
      case None => |html|
  }

  /**
    buildPreviewHtml: the page with `script` inserted at its anchor, and
    nothing else changed; an empty page becomes the placeholder.
   */
  function BuildPreviewHtml(html: string, script: string): (r: string)
    ensures html == "" ==> r == Placeholder
    ensures html != "" ==> r == InsertAt(html, Anchor(html), script)
  {
    if html == "" then Placeholder
    else if IndexOf(html, BodyClose).Some? then
      ReplaceBeforeIsInsert(html, BodyClose, script, IndexOf(html, BodyClose).value);
      ReplaceFirst(html, BodyClose, script + BodyClose)
    else if IndexOf(html, HtmlClose).Some? then
      ReplaceBeforeIsInsert(html, HtmlClose, script, IndexOf(html, HtmlClose).value);
      ReplaceFirst(html, HtmlClose, script + HtmlClose)
    else html + script
  }

  /**
    The script can be cut back out: removing `|script|` characters at the
    anchor gives the page back, and in a page with a body the script sits
    right before the first `</body>`.
   */
  lemma BuildPreviewHtmlRoundTrip(html: string, script: string)
    requires html != ""
    ensures var r, i := BuildPreviewHtml(html, script), Anchor(html);
      && r[..i] + r[i + |script|..] == html
      && r[i..i + |script|] == script
      && (Contains(html, BodyClose) ==> StartsWith(r[i + |script|..], BodyClose))
  {
    var r, i := BuildPreviewHtml(html, script), Anchor(html);
    assert r[i + |script|..] == html[i..];
    if Contains(html, BodyClose) {
      assert html[i..][..|BodyClose|] == html[i..i + |BodyClose|];
    }
  }
}

/**
  client/src/components/ProjectPreview.tsx: the editor's iframe document
  (`injectPreview`) and the normalisation of a selected element
  (`transformElement`).
 */
module ProjectPreview {
  import opened Wrappers
  import opened Text
  import CardPreview

  // ---------------------------------------------------------------------------
  // injectPreview

  /** Before the first `</body>`, else at the end (no `</html>` fallback). */
  function BodyAnchor(html: string): (i: nat)
    ensures i <= |html|
    ensures Contains(html, CardPreview.BodyClose) ==> FirstAt(html, CardPreview.BodyClose, i)
    ensures !Contains(html, CardPreview.BodyClose) ==> i == |html|
  {
    match IndexOf(html, CardPreview.BodyClose)
    case Some(i) => i
    case None => |html|
  }

  /** injectPreview: the script is added only when the editor panel is shown. */
  function InjectPreview(html: string, script: string, showEditorPanel: bool): (r: string)
    ensures html == "" ==> r == ""
    ensures html != "" && !showEditorPanel ==> r == html
    ensures html != "" && showEditorPanel ==> r == InsertAt(html, BodyAnchor(html), script)
  {
    if html == "" then ""
    else if !showEditorPanel then html
    else if IndexOf(html, CardPreview.BodyClose).Some? then
      ReplaceBeforeIsInsert(html, CardPreview.BodyClose, script, IndexOf(html, CardPreview.BodyClose).value);
      ReplaceFirst(html, CardPreview.BodyClose, script + CardPreview.BodyClose)
    else html + script
  }

  /**
    The editor and the cards place the script identically in a non-empty
    page that has a `</body>` or has no `</html>`.
   */
  lemma InjectAgreesWithCards(html: string, script: string)
    requires html != ""
    requires Contains(html, CardPreview.BodyClose) || !Contains(html, CardPreview.HtmlClose)
    ensures InjectPreview(html, script, true) == CardPreview.BuildPreviewHtml(html, script)
  {
    if Contains(html, CardPreview.BodyClose) {
      FirstUnique(html, CardPreview.BodyClose, BodyAnchor(html));
    }
  }

  /**
    They differ on every page with `</html>` but no `</body>`: the editor
    appends the script after the page, the cards insert it before the first
    `</html>`, which is not at the very end. The two results are different
    strings whenever the script is non-empty and holds no `</html>` of its
    own.
   */
  lemma InjectDiffersWithoutBody(html: string, script: string)
    requires Contains(html, CardPreview.HtmlClose) && !Contains(html, CardPreview.BodyClose)
    ensures InjectPreview(html, script, true) == html + script
    ensures var i := CardPreview.Anchor(html);
      && i + |CardPreview.HtmlClose| <= |html|
      && CardPreview.BuildPreviewHtml(html, script) == InsertAt(html, i, script)
    ensures script != "" && !Contains(script, CardPreview.HtmlClose) ==>
      InjectPreview(html, script, true) != CardPreview.BuildPreviewHtml(html, script)
  {
    var i := CardPreview.Anchor(html);
    assert html[..|html|] + script + html[|html|..] == html + script;
    if script != "" && !Contains(script, CardPreview.HtmlClose) {
      InsertBeforeTagDiffers(html, i, script);
    }
  }

  /**
    Inserting a non-empty script that holds no `</html>` just before an
    `</html>` of the page is not the same as appending it.
   */
  lemma InsertBeforeTagDiffers(html: string, i: nat, script: string)
    requires OccursAt(html, CardPreview.HtmlClose, i)
    requires script != "" && !Contains(script, CardPreview.HtmlClose)
    ensures InsertAt(html, i, script) != html + script
  {
    var x := InsertAt(html, i, script);
    var y := html + script;
    var n := |script|;
    if n >= 7 {
      assert !OccursAt(script, CardPreview.HtmlClose, 0);
      var m :| 0 <= m < 7 && script[m] != CardPreview.HtmlClose[m];
      assert x[i + m] == script[m];
      assert y[i + m] == html[i..i + 7][m];
    } else {
      assert x[i + n] == html[i..i + 7][0];
      assert y[i + n] == html[i..i + 7][n];
    }
  }

  /** The smallest such page: the editor and the cards disagree on `<html></html>`. */
  lemma InjectDiffersExample()
    ensures InjectPreview("<html></html>", "<s>", true) == "<html></html><s>"
    ensures CardPreview.BuildPreviewHtml("<html></html>", "<s>") == "<html><s></html>"
  {
    var h := "<html></html>";
    MissingChar(h, CardPreview.BodyClose, 2);
    assert FirstAt(h, CardPreview.HtmlClose, 6) by {
      assert h[6..13] == CardPreview.HtmlClose;
      forall j | 0 <= j < 6 ensures !OccursAt(h, CardPreview.HtmlClose, j) {
        assert h[j..j + 7][1] == h[j + 1];
      }
    }
    FirstUnique(h, CardPreview.HtmlClose, 6);
    assert h[..6] + "<s>" + h[6..] == "<html><s></html>";
  }

  // ---------------------------------------------------------------------------
  // transformElement

  /** The JavaScript values a selection message can carry (numbers are integers here). */
  datatype JsValue = Undefined | Null | Bool(b: bool) | Num(n: int) | Str(s: string) | Obj(props: map<string, JsValue>)

  /** JavaScript truthiness. */
  predicate Truthy(v: JsValue) {
    match v
    case Undefined => false
    case Null => false
    case Bool(b) => b
    case Num(n) => n != 0
    case Str(s) => s != ""
    case Obj(_) => true
  }

  /** `v?.key`: a missing property, or any property of a non-object, reads as undefined. */
  function Get(v: JsValue, key: string): JsValue {
    if v.Obj? && key in v.props then v.props[key] else Undefined
  }

  /** `a || b`. */
  function Or(a: JsValue, b: JsValue): (r: JsValue)
    ensures Truthy(a) ==> r == a
    ensures !Truthy(a) ==> r == b
  {
    if Truthy(a) then a else b
  }

  /** `a ?? b`. */
  function Coalesce(a: JsValue, b: JsValue): (r: JsValue)
    ensures a.Undefined? || a.Null? ==> r == b
    ensures !(a.Undefined? || a.Null?) ==> r == a
  {
    if a.Undefined? || a.Null? then b else a
  }

  const Empty: JsValue := Str("")

  datatype Styles = Styles(padding: JsValue, margin: JsValue, backgroundColor: JsValue, color: JsValue, fontSize: JsValue)
  datatype Selection = Selection(tagName: JsValue, className: JsValue, text: JsValue, styles: Styles)

  /** Each style read from `src`, with `''` for a falsy one. */
  function StylesOf(src: JsValue): Styles {
    Styles(Or(Get(src, "padding"), Empty), Or(Get(src, "margin"), Empty), Or(Get(src, "backgroundColor"), Empty),
           Or(Get(src, "color"), Empty), Or(Get(src, "fontSize"), Empty))
  }

  /** A value a `|| ''` default produced: truthy, or the empty string. */
  predicate Defaulted(v: JsValue) {
    Truthy(v) || v == Empty
  }

  /** What every normalised selection looks like. */
  predicate Normal(s: Selection) {
    && Defaulted(s.tagName) && Defaulted(s.className)
    && !s.text.Undefined? && !s.text.Null?
    && Defaulted(s.styles.padding) && Defaulted(s.styles.margin) && Defaulted(s.styles.backgroundColor)
    && Defaulted(s.styles.color) && Defaulted(s.styles.fontSize)
  }

  /** A message payload: it has truthy `styles` or a defined `text`. */
  predicate IsPayload(element: JsValue) {
    Truthy(Get(element, "styles")) || !Get(element, "text").Undefined?
  }

  /**
    transformElement: None for a falsy element; a payload keeps its `text`
    unless it is null (`??`), a DOM element gives its `textContent` unless
    falsy (`||`) and its inline `style`.
   */
  function TransformElement(element: JsValue): (r: Option<Selection>)
    ensures r.None? <==> !Truthy(element)
    ensures r.Some? ==> Normal(r.value)
    ensures r.Some? && IsPayload(element) ==>
      r.value.text == (if Get(element, "text").Null? || Get(element, "text").Undefined? then Empty else Get(element, "text"))
    ensures r.Some? && !IsPayload(element) ==>
      r.value.text == Or(Get(element, "textContent"), Empty) && r.value.styles == StylesOf(Or(Get(element, "style"), Obj(map[])))
  {
    if !Truthy(element) then None
    else
      var tag := Or(Get(element, "tagName"), Empty);
      var cls := Or(Get(element, "className"), Empty);
      if IsPayload(element) then
        Some(Selection(tag, cls, Coalesce(Get(element, "text"), Empty), StylesOf(Get(element, "styles"))))
      else
        Some(Selection(tag, cls, Or(Get(element, "textContent"), Empty), StylesOf(Or(Get(element, "style"), Obj(map[])))))
  }

  /** A selection as the object the editor posts back. */
  function ToJs(s: Selection): JsValue {
    Obj(map["tagName" := s.tagName, "className" := s.className, "text" := s.text,
            "styles" := Obj(map["padding" := s.styles.padding, "margin" := s.styles.margin,
                                "backgroundColor" := s.styles.backgroundColor, "color" := s.styles.color,
                                "fontSize" := s.styles.fontSize])])
  }

  /** A normalised selection, posted back as an object, normalises to itself. */
  lemma TransformRoundTrip(s: Selection)
    requires Normal(s)
    ensures TransformElement(ToJs(s)) == Some(s)
  {
    var o := ToJs(s);
    assert Get(o, "styles").Obj? && Truthy(Get(o, "styles"));
  }

  /** Normalising is idempotent on what it produces. */
  lemma TransformIdempotent(element: JsValue)
    requires Truthy(element)
    ensures TransformElement(ToJs(TransformElement(element).value)) == TransformElement(element)
  {
    TransformRoundTrip(TransformElement(element).value);
  }
}

/** client/src/App.tsx: the routes on which the navigation bar is hidden. */
module AppShell {
  import opened Text

  const HiddenPrefixes: seq<string> := ["/auth", "/preview/", "/view/", "/projects/"]

  /** `hideNavbar`, with JavaScript's `&&` binding tighter than `||`. */
  function HideNavbar(path: string): (r: bool)
    ensures r <==> exists i :: 0 <= i < |HiddenPrefixes| && StartsWith(path, HiddenPrefixes[i])
  {
    var r := StartsWith(path, "/auth") || (StartsWith(path, "/preview/") && path != "/projects")
      || StartsWith(path, "/view/") || StartsWith(path, "/projects/");
    assert StartsWith(path, "/preview/") ==> path != "/projects" by {
      if StartsWith(path, "/preview/") && |path| == 9 {
        assert path[3] == 'e';
      }
    }
    assert r ==> exists i :: 0 <= i < |HiddenPrefixes| && StartsWith(path, HiddenPrefixes[i]) by {
      if StartsWith(path, "/auth") { assert StartsWith(path, HiddenPrefixes[0]); }
      else if StartsWith(path, "/preview/") { assert StartsWith(path, HiddenPrefixes[1]); }
      else if StartsWith(path, "/view/") { assert StartsWith(path, HiddenPrefixes[2]); }
      else if StartsWith(path, "/projects/") { assert StartsWith(path, HiddenPrefixes[3]); }
    }
    r
  }

  /**
    The bar shows on `/projects`, `/` and `/community`; it hides inside a
    project, a preview, and on any path that merely starts with `/auth`,
    such as `/authors`. The `pathname!=='/projects'` test never decides
    anything, since no `/preview/` path equals `/projects`.
   */
  lemma HideNavbarExamples()
    ensures !HideNavbar("/projects") && !HideNavbar("/") && !HideNavbar("/community")
    ensures HideNavbar("/projects/7") && HideNavbar("/preview/7") && HideNavbar("/authors")
  {
    DiffersAt("/projects", "/auth", 1);
    DiffersAt("/projects", "/view/", 1);
    DiffersAt("/community", "/auth", 1);
    DiffersAt("/community", "/preview/", 1);
    DiffersAt("/community", "/view/", 1);
    DiffersAt("/community", "/projects/", 1);
    assert StartsWith("/projects/7", HiddenPrefixes[3]);
    assert StartsWith("/preview/7", HiddenPrefixes[1]);
    assert StartsWith("/authors", HiddenPrefixes[0]);
  }
}
