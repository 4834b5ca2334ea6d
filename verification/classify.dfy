/** The three small classifiers of the service: the caption colour a template
    gets, the script a caption is written in, and the upload extensions it accepts. */
module Classify {
  import opened Text
  import Caption

  datatype Rgb = Rgb(red: int, green: int, blue: int)

  const Black := Rgb(0, 0, 0)
  const White := Rgb(255, 255, 255)

  /** `get_text_color`: black for the default template and for `template1.png`,
      white for every other template. */
  function TextColor(templatePath: string): (c: Rgb)
    ensures c == Black <==> Basename(templatePath) == "template1.png"
    ensures c == Black || c == White
  {
    var name := Basename(templatePath);
    if name == Caption.DefaultTemplateFile || name == "template1.png" then Black else White
  }

  /** The name the colour test compares against is the default template's basename. */
  lemma DefaultTemplateName()
    ensures Basename(Caption.DefaultTemplatePath) == Caption.DefaultTemplateFile
  {
    BasenameJoin(Caption.TemplateDir, Caption.DefaultTemplateFile);
  }

  /** Of the numbered templates, exactly `template1.png` is captioned in black;
      "01" names a different file and gets white. */
  lemma NumberedTemplateColor(number: string)
    requires Caption.AllDigits(number)
    ensures TextColor(Caption.TemplatePath(number)) == Black <==> number == "1"
  {
    var name := "template" + number + ".png";
    assert Caption.TemplatePath(number) == Caption.TemplateDir + "/" + name;
    assert '/' !in name by {
      assert forall i :: 0 <= i < |number| ==> name[8 + i] == number[i];
    }
    BasenameJoin(Caption.TemplateDir, name);
    if name == "template1.png" {
      assert |number| == 1;
      assert number == name[8..9];
    }
  }

  /** The default template is captioned in black. */
  lemma DefaultTemplateColor()
    ensures TextColor(Caption.DefaultTemplatePath) == Black
  {
    DefaultTemplateName();
  }

  /** The Malayalam Unicode block, U+0D00 to U+0D7F. */
  predicate IsMalayalam(c: char) {
    0x0D00 <= c as int <= 0x0D7F
  }

  /** `detect_language`: "ml" as soon as one character lies in the Malayalam block, "en" otherwise. */
  function DetectLanguage(text: string): (lang: string)
    ensures lang == "ml" <==> exists i :: 0 <= i < |text| && IsMalayalam(text[i])
    ensures lang == "ml" || lang == "en"
    decreases |text|
  {
    if |text| == 0 then "en"
    else if IsMalayalam(text[0]) then "ml"
    else
      var lang := DetectLanguage(text[1..]);
      assert forall i :: 0 < i < |text| ==> text[i] == text[1..][i - 1];
      lang
  }

  /** `ALLOWED_EXTENSIONS`. */
  const AllowedExtensions: set<string> := {".jpg", ".jpeg", ".png", ".bmp", ".gif", ".tiff"}

  /** The allow-list in the order the check below tries it; Python's `any` over a set
      does not depend on the order. */
  const AllowedExtensionList: seq<string> := [".jpg", ".jpeg", ".png", ".bmp", ".gif", ".tiff"]

  function AnyEndsWith(s: string, suffixes: seq<string>): (b: bool)
    ensures b <==> exists k :: 0 <= k < |suffixes| && EndsWith(s, suffixes[k])
  {
    if |suffixes| == 0 then false
    else if EndsWith(s, suffixes[0]) then true
    else
      var b := AnyEndsWith(s, suffixes[1..]);
      assert forall k :: 0 < k < |suffixes| ==> suffixes[k] == suffixes[1..][k - 1];
      b
  }

  /** `is_allowed_file`: the lower-cased name ends with one of the allowed extensions. */
  function IsAllowedFile(filename: string): (b: bool)
    ensures b <==> exists ext :: ext in AllowedExtensions && EndsWith(Lower(filename), ext)
  {
    assert forall ext :: ext in AllowedExtensions <==> ext in AllowedExtensionList;
    AnyEndsWith(Lower(filename), AllowedExtensionList)
  }

  lemma LowerSuffix(s: string, k: nat)
    requires k <= |s|
    ensures Lower(s)[k..] == Lower(s[k..])
  {
  }

  /** The same test read the other way round: some suffix of the name, lower-cased,
      is one of the extensions. Lower-casing commutes with taking a suffix. */
  lemma AllowedFileBySuffix(filename: string)
    ensures IsAllowedFile(filename) <==>
            exists k :: 0 <= k <= |filename| && Lower(filename[k..]) in AllowedExtensions
  {
    var low := Lower(filename);
    if IsAllowedFile(filename) {
      var ext :| ext in AllowedExtensions && EndsWith(low, ext);
      var k := |filename| - |ext|;
      LowerSuffix(filename, k);
      assert Lower(filename[k..]) == ext;
    }
    if exists k :: 0 <= k <= |filename| && Lower(filename[k..]) in AllowedExtensions {
      var k :| 0 <= k <= |filename| && Lower(filename[k..]) in AllowedExtensions;
      LowerSuffix(filename, k);
      assert EndsWith(low, Lower(filename[k..]));
    }
  }

  /** An upper-case extension is accepted. */
  lemma UpperCaseExtensionAllowed()
    ensures IsAllowedFile("PHOTO.JPG")
  {
    assert Lower("PHOTO.JPG") == "photo.jpg";
    assert EndsWith("photo.jpg", ".jpg");
  }

  /** A name ending in the extension's letters without the dot is refused. */
  lemma BareExtensionRefused()
    ensures !IsAllowedFile("jpg")
  {
    assert Lower("jpg") == "jpg";
  }
}
