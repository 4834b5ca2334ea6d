# PosterAutomation core, modelled in Dafny

PosterAutomation is a small web service. It takes a photo and a free-text
field, and it produces a poster:

- the photo is resized and centred on a canvas the size of a template image;
- the template is laid over it;
- the text, when present, is drawn as a centred, word-wrapped caption.

This project models the decisions the service makes on the way. Pixels,
fonts and files are not part of the model.

- **Text** (`text.dfy`) holds the string primitives the service borrows from
  Python. These are `str.strip` and `str.split` over Python's whitespace set,
  `lower`, `endswith` and `os.path.basename`.
- **Caption** (`caption.dfy`) models `parse_caption_and_template`. A
  stripped text of the form `<digits>-<caption>`, with no newline in the
  caption, picks `public/template<digits>.png`, with a fallback to the default
  template when the file is missing. Any other text, stripped, becomes the
  caption of the default template. The regular expression
  `^(\d+)-(.*)$` is decided by a scan, and a lemma proves the scan agrees with
  the expression. That includes `$` matching before a final newline. The
  template store is a predicate parameter standing for `os.path.exists`.
- **Classify** (`classify.dfy`) models three things:
  - `get_text_color`: black for `template1.png`, white otherwise;
  - `detect_language`: "ml" as soon as a character is in the Malayalam block;
  - `is_allowed_file`, a case-insensitive extension allow-list.
- **Resize** (`resize.dfy`) models the size arithmetic of
  `resize_uploaded_image`. It fits the image into a box by the smaller of the
  two ratios and truncates. If the width ends up below the minimum, it scales
  up by `min_width / new_width` and truncates again. A division by zero
  becomes a `Failure`. So does a call to PIL's `resize` with a side below
  one pixel, which PIL refuses with a `ValueError`.
  - Ratios are exact rationals, and `int()` of a non-negative value is its
    floor.
  - In the model, with the service's constants (a 613×401 box and a minimum
    width of 650), every upload that succeeds comes out exactly 650 wide.
  - In the model, an upload fails exactly when it is empty, more than 401
    times taller than it is wide, or more than 613 times wider than it is
    tall. Python's doubles move both boundaries slightly (see "Left out").
- **Wrap** (`wrap.dfy`) models the greedy word wrap of `add_text_to_image`.
  The text's words are folded into lines. A word joins the current line while
  the measured width of `(line + " " + word).strip()` stays within 920 pixels.
  The width measure is an uninterpreted function parameter. The proved
  properties are:
  - the words are kept, in order;
  - every line of two or more words fits;
  - every break happened because the next word overflowed.

  The source's quirk is proved too. When the very first word alone is wider
  than 920 pixels, the source emits an empty first line before it.
- **Layout** (`layout.dfy`) models line placement and `process_image`'s
  geometry:
  - line `i` is drawn at height `780 + i * line_height` and is centred with
    floor division;
  - the canvas takes the template's size;
  - the upload is centred on the canvas;
  - the caption's font and lines come from the stripped overlay, and its
    colour from the template path.

`Wrappers` (`wrappers.dfy`) provides `Option` and `Result`.

## Model

| member | source | states |
|---|---|---|
| `Text.StripSpec` | main.py:115-116 | `strip` removes exactly the leading and trailing whitespace and keeps the middle. The result is empty exactly when the text is all whitespace, which is the blank-text test. |
| `Text.SplitSpec` | main.py:216 | `split()` yields non-empty words without whitespace. There are no words exactly when the text is all whitespace. |
| `Text.SplitStrip` | main.py:309 | Splitting the stripped overlay gives the same words as splitting the raw one. |
| `Text.Basename` | main.py:96 | The basename is a suffix of the path that contains no slash, and it is preceded by a slash unless it is the whole path. |
| `Text.BasenameJoin` | main.py:128 | The basename of `dir + "/" + name` is `name` when `name` has no slash. |
| `Caption.MatchNumberedSpec` | main.py:119-120 | The scan matches exactly when `^(\d+)-(.*)$` matches some split point, and it returns that split's two groups. Group 2 drops a final newline, which `$` accepts. |
| `Caption.ParseCases` | main.py:115-138 | For `ParseCaptionAndTemplate`: blank text gives the default template and an empty caption. A numbered text gives the stripped remainder as caption, with the numbered template if it exists and the default otherwise. A text that does not match is stripped and kept whole, with the default template. |
| `Caption.StrippedRestHasNoNewline` | main.py:119-124 | On stripped text, group 2 is the whole remainder after the dash. |
| `Caption.NewlineFallsThrough` | main.py:136-138 | A numbered prefix whose remainder contains a newline does not match. The whole stripped text becomes the caption of the default template. |
| `Caption.CaptionIndependentOfStore` | main.py:122-135 | The caption does not depend on which template files exist. |
| `Caption.ParsedTemplateAvailable` | main.py:127-135 | The chosen template is the default or an existing `public/template<digits>.png`. |
| `Caption.ParseRoundTrip` | main.py:110-132 | Parsing `<digits>-<caption>` gives back the caption, and the numbered template when it exists. |
| `Classify.TextColor` | main.py:90-102 | The colour is black exactly when the basename is `template1.png`, and white otherwise. |
| `Classify.DefaultTemplateName` | main.py:99 | The basename of `DEFAULT_TEMPLATE_PATH` is `template1.png`, so the two tests in the condition coincide. |
| `Classify.NumberedTemplateColor` | main.py:96-102 | Among the numbered templates, only number "1" is black. "01" is white. |
| `Classify.DefaultTemplateColor` | main.py:99-100 | The default template is captioned in black. |
| `Classify.DetectLanguage` | main.py:194-199 | The result is "ml" exactly when some character lies in U+0D00..U+0D7F, and "en" otherwise. |
| `Classify.IsAllowedFile` | main.py:162-164 | A file is allowed exactly when its lower-cased name ends with one of the six extensions. |
| `Classify.AllowedFileBySuffix` | main.py:164 | Equivalently, some suffix of the name, lower-cased, is an allowed extension. |
| `Classify.UpperCaseExtensionAllowed` | main.py:164 | `PHOTO.JPG` is accepted. |
| `Classify.BareExtensionRefused` | main.py:20 | `jpg` without the dot is refused. |
| `Resize.Trunc` | main.py:179-180 | `int()` of a non-negative ratio is the whole number within one below it. |
| `Resize.ScaleFactor` | main.py:175-177 | The smaller ratio keeps both sides within the box and brings one side exactly to it. |
| `Resize.FitWithinBox` | main.py:174-180 | The fitted size is inside the box and reaches it on at least one side. |
| `Resize.FitWithinAspect` | main.py:179-180 | After truncation, the fitted size keeps the original aspect ratio to within one pixel on each side. |
| `Resize.ResizeCases` | main.py:167-191 | For `ResizeUploaded`: the resize fails exactly on an empty image (a division by zero) or on a fitted size with a zero side (refused by the first `resize`). A fitted width at or above the minimum is kept. A narrower one is scaled to exactly the minimum width, with a proportional truncated height that is never lower than the fitted one, so the second `resize` never fails. A success is never narrower than the minimum and has no zero side. |
| `Resize.ScaleUpSpec` | main.py:185-188 | The upscale lands on exactly `min_width`. Its height is the floor of the proportional value, and it is at least the fitted height whenever the fitted width was below the minimum. |
| `Resize.Upscale` | main.py:185-188 | Scaling by `min_width / new_width` gives exactly `min_width`. The height is the floor of `new_height * min_width / new_width`. |
| `Resize.UploadFitZeroWidth` | main.py:273 | In the 613×401 box, the fitted width is zero exactly when the height exceeds 401 times the width. |
| `Resize.UploadFitZeroHeight` | main.py:273 | In the 613×401 box, the fitted height is zero exactly when the width exceeds 613 times the height. |
| `Resize.UploadResize` | main.py:273 | With the service's constants, the resize fails exactly on empty uploads, uploads more than 401 times taller than wide, and uploads more than 613 times wider than tall. Otherwise it returns a width of exactly 650 and a positive height. That height is the fitted height scaled by 650 over the fitted width and floored, and it is never below the fitted height. |
| `Resize.TallSliverFails` | main.py:182 | A 1×500 upload fits at width 0, and the first `resize` refuses it. |
| `Resize.WideSliverFails` | main.py:182 | A 1000×1 upload fits at 613×0, and the first `resize` refuses it. |
| `Resize.SquareUpload` | main.py:185-189 | A 100×100 upload fits at 401×401 and ends at 650×650. |
| `Resize.WideUpload` | main.py:174-189 | A 2000×1000 upload fits at 613×306 and ends at 650×324. |
| `Wrap.WrapKeepsWords` | main.py:216-232 | For `WrapText`: the lines hold exactly the words of the text, in order. Each line is its words joined by single spaces. There are no lines exactly when the text is blank. |
| `Wrap.WrapLineWidth` | main.py:220-229 | Every line of two or more words measures at most 920. So does every join of its leading words. |
| `Wrap.WrapGreedyBreak` | main.py:220-232 | Each line after the first starts with a word that overflowed when appended to the previous line. No line after the first is empty, and neither is the last. |
| `Wrap.WrapEmptyFirstLine` | main.py:218-229 | The first line is empty exactly when the first word alone measures more than 920. |
| `Layout.CenterOffset` | main.py:245 | `(outer - inner) // 2` leaves a left margin that equals the right one or is one pixel smaller. |
| `Layout.PlaceFrom` | main.py:240-247 | Line `i` keeps its text, is centred by its own width, and is drawn at `y + i * line_height`. |
| `Layout.AddText` | main.py:202-247 | The drawn lines are the wrapped lines, in order. Line `i` is at height `780 + i * line_height` and is centred in the image width. |
| `Layout.DetectLanguageStrip` | main.py:306 | Stripping the overlay never changes the detected script. |
| `Layout.CaptionStyle` | main.py:305-308 | For `CaptionFor`: a caption exists exactly when the overlay has a non-whitespace character. Its script is "ml" exactly when the overlay contains a Malayalam character. It is black exactly for `template1.png`. |
| `Layout.CaptionLines` | main.py:305-309 | The caption's lines hold exactly the overlay's words, in order. Line `i` is at `780 + i * line_height` and is centred on the canvas width. |
| `Layout.ProcessImageFrame` | main.py:263-285 | For `ProcessImage`: processing fails exactly on an empty upload, one more than 401 times taller than wide, or one more than 613 times wider than tall. Otherwise the canvas is the template's size. The pasted upload is the resized user image: exactly 650 wide, with the fitted height scaled by 650 over the fitted width and floored. It is centred on the canvas with floor division. |
| `Layout.ProcessImageCaption` | main.py:304-309 | For `ProcessImage`: a successful result carries the caption of its overlay, laid out on the template's width, whatever the upload was. The caption is present exactly for a non-blank overlay, and it is black exactly for `template1.png`. Its lines hold the overlay's words, each centred on the template's width. |

## Left out

- The HTTP routes, the request and response shapes, and the wiring from `parse_caption_and_template` into `process_image` are not modelled. They are framework plumbing.
- Font download and `get_font` are not modelled: a font is a parameter. It is given as a width measure and a line height (`fontFor` maps a language tag to a font). Text rendering is outside the model.
- The template store is the `pathExists` parameter, standing for `os.path.exists`. `get_available_templates` (directory listing) is not modelled.
- No pixel work is modelled. Not modelled:
  - RGB conversion and LANCZOS resampling;
  - the alpha compositing of the template over the canvas, and the paste itself.

  Of PIL's `resize`, only its refusal of a target with a side below one pixel is modelled (`Resize.PilResize`). That refusal comes before the division on line 186, so a zero fitted width fails at line 182.
- Directory creation, output file names (`datetime`, `uuid`) and JPEG saving are not modelled, because they are I/O.
- Exceptions are not modelled as Python does them. Every exception inside `process_image` becomes an HTTP 500; in the model, the division by zero and PIL's refusal are the `ResizeError` failure of `ProcessImage`. Failures to open or save files are I/O and are not modelled.
- Resize.ResizeCases: ratios are exact rationals, not IEEE doubles. With doubles, `int(new_width * (min_width / new_width))` can round to one below the minimum. The model does not cover that rounding.
- Resize.UploadResize: the failure boundary and the width of exactly 650 are proved for exact rationals only. In doubles both shift.
  - A 49×19649 upload is exactly 401 times taller than wide. Its fitted width `int(49 * (401 / 19649))` is 0 in doubles, so the service fails where the model succeeds.
  - The fitted width can come out one below the box: `int(135 * (613 / 135))` is 612.
  - The upscale can come out one below the minimum: for fitted widths such as 73, `int(73 * (650 / 73))` is 649.
- Resize.FitWithinBox: "reaches the box on one side" holds in exact rationals. In doubles the touching side can be one pixel short, as with the 135-wide upload above.
- Layout.ProcessImageFrame: its failure condition and its 650-wide upload inherit the exact-rational reading of `Resize.UploadResize`. Near the boundaries the service may fail, or produce a 649-wide upload, where the model does not.
- Caption.MatchNumberedSpec: `\d` is taken as the ASCII digits. Python 3's `\d` also accepts the other Unicode decimal digits.
- Classify.IsAllowedFile: `lower()` is ASCII lower-casing. The verdict is the same either way. The only non-ASCII characters that lower-case to ASCII are the Kelvin sign, which becomes `k` (a letter no extension uses), and `İ`, which becomes `i` followed by a combining dot (a character no extension contains).
- `MIN_TEXT_BOX_HEIGHT`, `total_text_height` and `text_box_height` (lines 210 and 236-237) are computed and never used, so they are not modelled. Nothing bounds the caption to the image height either, and the model does not add a bound.
- The `process_image` docstring speaks of an 830×590 box, but the code passes 613×401 with a minimum width of 650. The model follows the code. With those constants the final width is always 650, so a 2000×1000 upload ends at 650×324 (`Resize.WideUpload`), not within 613×401.
- `MAX_UPLOADED_WIDTH` and `MAX_UPLOADED_HEIGHT` (lines 23-24) are only reported in responses, so they are not modelled.
