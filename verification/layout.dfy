/** The layout decisions of `process_image` and `add_text_to_image`: the canvas
    takes the template's size, the resized upload is centred on it, and the
    caption, when there is one, is wrapped and drawn line by line from a fixed
    height, each line centred. Pixels, fonts and files are not modelled: a
    font is its width measure and its line height, supplied per language. */
module Layout {
  import opened Wrappers
  import opened Text
  import opened Classify
  import opened Wrap
  import opened Resize

  /** `TEXT_Y_POSITION`: the height of the first caption line. */
  const TextTop := 780

  /** `(outer - inner) // 2`: the offset that centres `inner` in `outer`,
      rounding down, so any odd pixel of slack goes to the right (or bottom). */
  function CenterOffset(outer: int, inner: int): (x: int)
    ensures 2 * x <= outer - inner < 2 * x + 2
    ensures x <= outer - inner - x <= x + 1
  {
    (outer - inner) / 2
  }

  /** What the service reads off a font: the width of a rendered string
      (`textbbox` right minus left) and the height of "Ay" (`getbbox` bottom minus top). */
  datatype Font = Font(measure: string -> int, lineHeight: int)

  /** One `draw.text((x, y), line)` call. */
  datatype PlacedLine = PlacedLine(text: string, x: int, y: int)

  /** The drawing loop from height `y` on: each line centred in `imageWidth`,
      each one a line height below the one before. */
  function PlaceFrom(font: Font, imageWidth: int, lines: seq<string>, y: int): (r: seq<PlacedLine>)
    ensures |r| == |lines|
    ensures forall i :: 0 <= i < |lines| ==>
              && r[i].text == lines[i]
              && r[i].x == CenterOffset(imageWidth, font.measure(lines[i]))
              && r[i].y == y + i * font.lineHeight
    decreases |lines|
  {
    if |lines| == 0 then []
    else
      var first := PlacedLine(lines[0], CenterOffset(imageWidth, font.measure(lines[0])), y);
      var rest := PlaceFrom(font, imageWidth, lines[1..], y + font.lineHeight);
      assert forall i :: 1 <= i < |lines| ==> (y + font.lineHeight) + (i - 1) * font.lineHeight == y + i * font.lineHeight;
      [first] + rest
  }

  /** `add_text_to_image(image, text, font, color)` on an image `imageWidth`
      wide: the wrapped lines of `text`, the first at height 780. */
  function AddText(font: Font, imageWidth: int, text: string): (r: seq<PlacedLine>)
    ensures |r| == |WrapText(font.measure, text)|
    ensures forall i :: 0 <= i < |r| ==>
              && r[i].text == WrapText(font.measure, text)[i]
              && r[i].x == CenterOffset(imageWidth, font.measure(r[i].text))
              && r[i].y == TextTop + i * font.lineHeight
  {
    PlaceFrom(font, imageWidth, WrapText(font.measure, text), TextTop)
  }

  /** The text of each drawn line, in drawing order. */
  function Texts(r: seq<PlacedLine>): (ts: seq<string>)
    ensures |ts| == |r| && forall i :: 0 <= i < |r| ==> ts[i] == r[i].text
  {
    seq(|r|, i requires 0 <= i < |r| => r[i].text)
  }

  /** The caption as drawn: the script detected, the colour chosen, the lines placed. */
  datatype CaptionLayout = CaptionLayout(language: string, color: Rgb, lines: seq<PlacedLine>)

  /** The composed image: a canvas of the template's size, the resized upload
      at its offset, and the caption if any. */
  datatype Composite = Composite(canvas: Size, upload: Size, uploadX: int, uploadY: int, caption: Option<CaptionLayout>)

  /** The caption branch of `process_image`: nothing for a missing or blank
      overlay; otherwise the stripped overlay, its script, the template's text
      colour and the lines `add_text_to_image` draws on a canvas `canvasWidth` wide. */
  function CaptionFor(templatePath: string, canvasWidth: int, overlay: Option<string>,
                      fontFor: string -> Font): Option<CaptionLayout>
  {
    if overlay.Some? && Strip(overlay.value) != "" then
      var text := Strip(overlay.value);
      var language := DetectLanguage(text);
      Some(CaptionLayout(language, TextColor(templatePath), AddText(fontFor(language), canvasWidth, text)))
    else
      None
  }

  /** `process_image(template_path, user_image, overlay_text)` on sizes: the
      template's size, the upload's size, and the optional caption. `fontFor`
      is `get_font`: the font for a language tag. A failing resize surfaces as
      the error the service turns into its HTTP 500. */
  function ProcessImage(templatePath: string, template: Size, user: Size, overlay: Option<string>,
                        fontFor: string -> Font): Result<Composite, ResizeError>
  {
    match ResizeUploaded(user, UploadMaxWidth, UploadMaxHeight, UploadMinWidth)
    case Failure(e) => Failure(e)
    case Success(up) =>
      var x := CenterOffset(template.width, up.width);
      var y := CenterOffset(template.height, up.height);
      Success(Composite(template, up, x, y, CaptionFor(templatePath, template.width, overlay, fontFor)))
  }

  /** The model fails exactly on an empty upload, one more than 401 times
      taller than wide, or one more than 613 times wider than tall; otherwise
      the canvas is the template's size and the upload, exactly 650 wide and
      as tall as its fitted height scaled by the same factor and floored, is
      centred on it. */
  lemma ProcessImageFrame(templatePath: string, template: Size, user: Size, overlay: Option<string>,
                          fontFor: string -> Font)
    ensures var r := ProcessImage(templatePath, template, user, overlay, fontFor);
            r.Failure? <==> || user.width == 0 || user.height == 0
                            || UploadMaxHeight * user.width < user.height
                            || UploadMaxWidth * user.height < user.width
    ensures var r := ProcessImage(templatePath, template, user, overlay, fontFor);
            r.Success? ==>
              && r.value.canvas == template
              && r.value.upload.width == UploadMinWidth
              && (var fit := FitWithin(user, UploadMaxWidth, UploadMaxHeight);
                  r.value.upload.height * fit.width <= fit.height * UploadMinWidth < (r.value.upload.height + 1) * fit.width)
              && 2 * r.value.uploadX <= template.width - r.value.upload.width < 2 * r.value.uploadX + 2
              && 2 * r.value.uploadY <= template.height - r.value.upload.height < 2 * r.value.uploadY + 2
  {
    UploadResize(user);
  }

  /** No Malayalam character is whitespace, so stripping never changes the script detected. */
  lemma DetectLanguageStrip(s: string)
    ensures DetectLanguage(Strip(s)) == DetectLanguage(s)
  {
    var r := Strip(s);
    StripSpec(s);
    var a :| 0 <= a && a + |r| <= |s| && r == s[a..a + |r|] && AllSpace(s[..a]) && AllSpace(s[a + |r|..]);
    MalayalamInMiddle(s, a, r);
  }

  /** A Malayalam character of `s` lies in any middle part of it that only whitespace surrounds. */
  lemma MalayalamInMiddle(s: string, a: nat, r: string)
    requires a + |r| <= |s| && r == s[a..a + |r|]
    requires AllSpace(s[..a]) && AllSpace(s[a + |r|..])
    ensures (exists i :: 0 <= i < |s| && IsMalayalam(s[i])) <==> (exists j :: 0 <= j < |r| && IsMalayalam(r[j]))
  {
    forall k | 0 <= k < a ensures IsSpace(s[k]) {
      assert s[k] == s[..a][k];
    }
    forall k | a + |r| <= k < |s| ensures IsSpace(s[k]) {
      assert s[k] == s[a + |r|..][k - a - |r|];
    }
    forall i | 0 <= i < |s| && IsMalayalam(s[i]) ensures exists j :: 0 <= j < |r| && IsMalayalam(r[j]) {
      assert a <= i < a + |r|;
      assert r[i - a] == s[i];
    }
    forall j | 0 <= j < |r| && IsMalayalam(r[j]) ensures exists i :: 0 <= i < |s| && IsMalayalam(s[i]) {
      assert r[j] == s[a + j];
    }
  }

  /** A caption is drawn exactly when the overlay holds a non-whitespace
      character. It is drawn in the font of the detected script, which is "ml"
      as soon as a Malayalam character occurs, and in black exactly for
      `template1.png`. */
  lemma CaptionStyle(templatePath: string, canvasWidth: int, overlay: Option<string>, fontFor: string -> Font)
    ensures var c := CaptionFor(templatePath, canvasWidth, overlay, fontFor);
            && (c.Some? <==> overlay.Some? && !AllSpace(overlay.value))
            && (c.Some? ==>
                  && (c.value.language == "ml" <==> exists i :: 0 <= i < |overlay.value| && IsMalayalam(overlay.value[i]))
                  && (c.value.color == Black <==> Basename(templatePath) == "template1.png"))
  {
    if overlay.Some? {
      StripSpec(overlay.value);
      DetectLanguageStrip(overlay.value);
    }
  }

  /** The caption's lines hold exactly the overlay's words, in order; line `i`
      is drawn 780 plus `i` line heights down, centred on the canvas. */
  lemma CaptionLines(templatePath: string, canvasWidth: int, overlay: Option<string>, fontFor: string -> Font)
    ensures var c := CaptionFor(templatePath, canvasWidth, overlay, fontFor);
            c.Some? ==>
              var font := fontFor(c.value.language);
              && WordsOf(Texts(c.value.lines)) == Split(overlay.value)
              && (forall i :: 0 <= i < |c.value.lines| ==>
                    && c.value.lines[i].y == TextTop + i * font.lineHeight
                    && 2 * c.value.lines[i].x <= canvasWidth - font.measure(c.value.lines[i].text) < 2 * c.value.lines[i].x + 2)
  {
    var c := CaptionFor(templatePath, canvasWidth, overlay, fontFor);
    if c.Some? {
      var s := overlay.value;
      var measure := fontFor(c.value.language).measure;
      WrapKeepsWords(measure, Strip(s));
      SplitStrip(s);
      assert Texts(c.value.lines) == WrapText(measure, Strip(s));
    }
  }

  /** A successful composite carries the caption of its overlay, laid out on
      the template's width, whatever the upload: present exactly for a
      non-blank overlay, black exactly for `template1.png`, and holding the
      overlay's words, each line centred on the template. */
  lemma ProcessImageCaption(templatePath: string, template: Size, user: Size, overlay: Option<string>,
                            fontFor: string -> Font)
    ensures var r := ProcessImage(templatePath, template, user, overlay, fontFor);
            r.Success? ==> r.value.caption == CaptionFor(templatePath, template.width, overlay, fontFor)
    ensures var r := ProcessImage(templatePath, template, user, overlay, fontFor);
            r.Success? ==>
              var c := r.value.caption;
              && (c.Some? <==> overlay.Some? && !AllSpace(overlay.value))
              && (c.Some? ==>
                    var font := fontFor(c.value.language);
                    && (c.value.color == Black <==> Basename(templatePath) == "template1.png")
                    && WordsOf(Texts(c.value.lines)) == Split(overlay.value)
                    && (forall i :: 0 <= i < |c.value.lines| ==>
                          2 * c.value.lines[i].x <= template.width - font.measure(c.value.lines[i].text) < 2 * c.value.lines[i].x + 2))
  {
    CaptionStyle(templatePath, template.width, overlay, fontFor);
    CaptionLines(templatePath, template.width, overlay, fontFor);
  }
}
