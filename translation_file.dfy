/**
 * TranslationFile: one resource-bundle properties file, with its name split into root name,
 * locale segment and extension, and the coloured label the plugin's lists show for it.
 */
module TranslationFiles {
  import opened Wrappers
  import opened JavaText
  import opened HtmlStrings

  /** A java.util.Locale as a value: its language, country and variant codes. */
  datatype Locale = Locale(language: string, country: string, variant: string)

  /** The locale given to a file whose name carries no recognised language. */
  const DefaultLocale := Locale("en", "US", "Default")

  /** The language code `new Locale(code)` stores on Java 11: lower-cased, with the three
    * codes that ISO 639 renamed mapped back to their old form. */
  function JavaLanguage(code: string): string {
    var lower := AsciiLower(code);
    if lower == "he" then "iw" else if lower == "yi" then "ji" else if lower == "id" then "in" else lower
  }

  /** Locale.getISO3Language succeeds: the language is empty, has three letters, or is a
    * two-letter code of the JDK's ISO 639 table (`iso2`, which is not part of this model). */
  predicate HasIso3Language(language: string, iso2: string -> bool) {
    |language| == 0 || |language| == 3 || (|language| == 2 && iso2(language))
  }

  /** The IDE file a translation file stands for: its name and whether the IDE recognises it
    * as a properties file. */
  datatype FileRef = FileRef(name: string, isProperties: bool)

  /** What is learnt from a file name; None stands for a field left null. */
  datatype ParsedName = ParsedName(baseName: Option<string>, extension: Option<string>,
                                   rootName: Option<string>, locale: Locale)

  /** The root name and locale of a file whose base name is `base`: a segment after the last
    * '_' that the JDK accepts as a language gives the locale, and the root name is the base
    * name up to the first occurrence of "_" and that segment; otherwise the root name is the
    * whole base name and the locale the default one. */
  function RootAndLocale(base: string, iso2: string -> bool): (string, Locale) {
    var index := LastIndexOfChar(base, '_');
    if index == -1 then (base, DefaultLocale)
    else
      var localePart := base[index + 1..];
      var language := JavaLanguage(localePart);
      if !HasIso3Language(language, iso2) then (base, DefaultLocale)
      else (Fields(base, "_" + localePart)[0], Locale(language, "", ""))
  }

  /** The name parsing of a translation file: the name is split on '.', and when that gives
    * more than one piece the first is the base name and the second the extension. */
  function Parse(name: string, iso2: string -> bool): ParsedName {
    var parts := JavaSplit(name, ".");
    if |parts| <= 1 then ParsedName(None, None, None, DefaultLocale)
    else
      var (root, locale) := RootAndLocale(parts[0], iso2);
      ParsedName(Some(parts[0]), Some(parts[1]), Some(root), locale)
  }

  /** The root name and locale as the source computes them: the root name is element 0 of
    * `base.split("_" + localePart)`, an empty array when the base name is nothing but
    * repetitions of "_" and the locale segment. */
  function RootAndLocaleAsWritten(base: string, iso2: string -> bool): Result<(string, Locale), Fault> {
    var index := LastIndexOfChar(base, '_');
    if index == -1 then Success((base, DefaultLocale))
    else
      var localePart := base[index + 1..];
      var language := JavaLanguage(localePart);
      if !HasIso3Language(language, iso2) then Success((base, DefaultLocale))
      else
        var otherParts := JavaSplit(base, "_" + localePart);
        if |otherParts| == 0 then Failure(IndexOutOfBounds)
        else Success((otherParts[0], Locale(language, "", "")))
  }

  /** The name parsing as the source writes it. */
  function ParseAsWritten(name: string, iso2: string -> bool): Result<ParsedName, Fault> {
    var parts := JavaSplit(name, ".");
    if |parts| <= 1 then Success(ParsedName(None, None, None, DefaultLocale))
    else
      match RootAndLocaleAsWritten(parts[0], iso2)
      case Failure(f) => Failure(f)
      case Success((root, locale)) => Success(ParsedName(Some(parts[0]), Some(parts[1]), Some(root), locale))
  }

  /** Splitting on a one-character separator yields only empty fields exactly when the text is
    * nothing but that character. */
  lemma {:induction false} FieldsAllEmpty(t: string, c: char)
    ensures (forall k | 0 <= k < |Fields(t, [c])| :: Fields(t, [c])[k] == "")
            <==> (forall k | 0 <= k < |t| :: t[k] == c)
    decreases |t|
  {
    var i := IndexOf(t, [c]);
    if |t| > 0 {
      assert t[0..1] == [t[0]];
      if i < 0 {
        assert !OccursAt(t, [c], 0);
        assert t[0] != c;
        assert Fields(t, [c]) == [t];
        assert Fields(t, [c])[0] != "";
        assert !(forall k | 0 <= k < |t| :: t[k] == c);
      } else {
        var fs := Fields(t, [c]);
        assert fs == [t[..i]] + Fields(t[i + 1..], [c]);
        if i == 0 {
          FieldsAllEmpty(t[1..], c);
          assert t[0..1] == [c];
          var gs := Fields(t[1..], [c]);
          assert fs == [""] + gs;
          assert (forall k | 0 <= k < |fs| :: fs[k] == "") <==> (forall k | 0 <= k < |gs| :: gs[k] == "") by {
            assert forall k | 0 <= k < |gs| :: fs[k + 1] == gs[k];
          }
          assert (forall k | 0 <= k < |t| :: t[k] == c) <==> (forall k | 0 <= k < |t[1..]| :: t[1..][k] == c) by {
            assert forall k | 0 <= k < |t[1..]| :: t[k + 1] == t[1..][k];
          }
        } else {
          assert fs[0] != "";
          assert !OccursAt(t, [c], 0);
        }
      }
    }
  }

  /** The pieces that splitting a name on '.' keeps: more than one exactly when some character
    * after the first '.' is not a '.'. */
  lemma {:induction false} SplitOnDot(name: string)
    ensures var i := IndexOf(name, ".");
            |JavaSplit(name, ".")| > 1 <==> i >= 0 && exists j | i < j < |name| :: name[j] != '.'
  {
    var i := IndexOf(name, ".");
    var parts := JavaSplit(name, ".");
    if name != [] && i >= 0 {
      var rest := name[i + 1..];
      var fs := Fields(name, ".");
      assert fs == [name[..i]] + Fields(rest, ".");
      FieldsAllEmpty(rest, '.');
      assert "." == ['.'];
      assert (exists j | i < j < |name| :: name[j] != '.') <==> (exists k | 0 <= k < |rest| :: rest[k] != '.') by {
        assert forall k | 0 <= k < |rest| :: rest[k] == name[i + 1 + k];
        assert forall j | i < j < |name| :: name[j] == rest[j - i - 1];
      }
      if exists k | 0 <= k < |rest| :: rest[k] != '.' {
        var k :| 0 <= k < |Fields(rest, ".")| && Fields(rest, ".")[k] != "";
        assert fs[k + 1] != "";
        JavaSplitKeeps(name, ".", 1);
      } else {
        assert forall k | 1 <= k < |fs| :: fs[k] == "";
        assert |parts| <= 1;
      }
    } else if name != [] {
      assert Fields(name, ".") == [name];
    }
  }

  /** A name gets a base name and an extension exactly when some character after its first
    * '.' is not a '.'; otherwise no field is set and the default locale applies. */
  lemma ParseSetsNames(name: string, iso2: string -> bool)
    ensures var i := IndexOf(name, ".");
            Parse(name, iso2).baseName.Some?
            <==> i >= 0 && exists j | i < j < |name| :: name[j] != '.'
    ensures Parse(name, iso2).baseName.None? ==> Parse(name, iso2) == ParsedName(None, None, None, DefaultLocale)
  {
    SplitOnDot(name);
  }

  /** A name without any '.' gets no base name, extension or root name and the default
    * locale. */
  lemma NameWithoutDot(name: string, iso2: string -> bool)
    requires forall k | 0 <= k < |name| :: name[k] != '.'
    ensures Parse(name, iso2) == ParsedName(None, None, None, DefaultLocale)
  {
    assert !Contains(name, ".") by {
      forall k | 0 <= k <= |name| - 1
        ensures !OccursAt(name, ".", k)
      {
        assert name[k..k + 1][0] == name[k];
      }
    }
    IndexOfFindsContained(name, ".");
    SplitOnDot(name);
  }

  /** The text up to the first occurrence of a one-character separator holds no such
    * character, and is followed by the separator or the end of the text. */
  lemma FirstFieldOfChar(t: string, c: char)
    ensures var e := Fields(t, [c])[0];
            |e| <= |t| && t[..|e|] == e && (forall k | 0 <= k < |e| :: e[k] != c)
            && (|e| == |t| || t[|e|] == c)
  {
    var j := IndexOf(t, [c]);
    FirstField(t, [c]);
    var e := Fields(t, [c])[0];
    forall k | 0 <= k < |e|
      ensures e[k] != c
    {
      assert !OccursAt(t, [c], k);
      assert t[k..k + 1] == [t[k]];
    }
    if j >= 0 {
      assert t[j..j + 1] == [c];
    }
  }

  /** The first two pieces of a name split on '.': the text before the first '.', and the
    * text after it up to the next '.' or the end. */
  lemma {:induction false} SplitOnDotPieces(name: string)
    requires |JavaSplit(name, ".")| > 1
    ensures var i := IndexOf(name, ".");
            var parts := JavaSplit(name, ".");
            i >= 0 && parts[0] == name[..i]
            && var e := parts[1];
               i + 1 + |e| <= |name| && name[i + 1..i + 1 + |e|] == e
               && (forall k | 0 <= k < |e| :: e[k] != '.')
               && (i + 1 + |e| == |name| || name[i + 1 + |e|] == '.')
  {
    var i := IndexOf(name, ".");
    var parts := JavaSplit(name, ".");
    var fs := Fields(name, ".");
    assert name != [];
    assert parts == fs[..|parts|];
    assert i >= 0;
    var rest := name[i + 1..];
    assert fs == [name[..i]] + Fields(rest, ".");
    assert parts[1] == Fields(rest, ".")[0];
    assert "." == ['.'];
    FirstFieldOfChar(rest, '.');
    var e := parts[1];
    assert rest[..|e|] == name[i + 1..i + 1 + |e|];
  }

  /** The base name is the text before the first '.', and the extension the text after it up
    * to the next '.' or the end of the name. */
  lemma ParseBaseNameAndExtension(name: string, iso2: string -> bool)
    requires Parse(name, iso2).baseName.Some?
    ensures var i := IndexOf(name, ".");
            var p := Parse(name, iso2);
            i >= 0 && p.baseName == Some(name[..i]) && p.extension.Some?
            && var e := p.extension.value;
               i + 1 + |e| <= |name| && name[i + 1..i + 1 + |e|] == e
               && (forall k | 0 <= k < |e| :: e[k] != '.')
               && (i + 1 + |e| == |name| || name[i + 1 + |e|] == '.')
  {
    SplitOnDotPieces(name);
  }

  /** A base name whose last '_' is followed by a segment the JDK rejects as a language, or
    * which has no '_' at all, is its own root name and gets the default locale. */
  lemma RootAndLocaleRejected(base: string, iso2: string -> bool)
    requires var k := LastIndexOfChar(base, '_');
             k < 0 || !HasIso3Language(JavaLanguage(base[k + 1..]), iso2)
    ensures RootAndLocale(base, iso2) == (base, DefaultLocale)
  {
  }

  /** The segment after the last '_' holds no '_', and the first occurrence of "_" and that
    * segment is at or before that last '_'. */
  lemma LocaleSegment(base: string)
    requires LastIndexOfChar(base, '_') >= 0
    ensures var k := LastIndexOfChar(base, '_');
            var segment := base[k + 1..];
            (forall j | 0 <= j < |segment| :: segment[j] != '_')
            && 0 <= IndexOf(base, "_" + segment) <= k
  {
    var k := LastIndexOfChar(base, '_');
    var segment := base[k + 1..];
    var pat := "_" + segment;
    assert base[k..k + |pat|] == pat;
    assert OccursAt(base, pat, k);
    var r := IndexOf(base, pat);
    assert r < 0 || k < r ==> !OccursAt(base, pat, k);
    forall j | 0 <= j < |segment|
      ensures segment[j] != '_'
    {
      assert segment[j] == base[k + 1 + j];
    }
  }

  /** A segment after the last '_' that the JDK accepts as a language becomes the locale's
    * language (with no country or variant), and the root name is the base name cut at the
    * first occurrence of "_" and that segment. */
  lemma RootAndLocaleAccepted(base: string, iso2: string -> bool)
    requires var k := LastIndexOfChar(base, '_');
             k >= 0 && HasIso3Language(JavaLanguage(base[k + 1..]), iso2)
    ensures var k := LastIndexOfChar(base, '_');
            var segment := base[k + 1..];
            var cut := IndexOf(base, "_" + segment);
            0 <= cut && RootAndLocale(base, iso2) == (base[..cut], Locale(JavaLanguage(segment), "", ""))
  {
    LocaleSegment(base);
    var k := LastIndexOfChar(base, '_');
    var segment := base[k + 1..];
    var pat := "_" + segment;
    FirstField(base, pat);
    var cut := IndexOf(base, pat);
    assert Fields(base, pat)[0] == base[..cut];
    assert RootAndLocale(base, iso2) == (Fields(base, pat)[0], Locale(JavaLanguage(segment), "", ""));
  }

  /** The source's root-name computation throws exactly where its split yields an empty
    * array, and otherwise agrees with the corrected one. */
  lemma RootAndLocaleAsWrittenAgrees(base: string, iso2: string -> bool)
    ensures var r := RootAndLocaleAsWritten(base, iso2);
            (r.Success? ==> r.value == RootAndLocale(base, iso2))
            && (r.Failure? ==> r.error == IndexOutOfBounds)
  {
  }

  /** Parsing as written either throws an index error or agrees with the corrected parsing. */
  lemma ParseAsWrittenAgrees(name: string, iso2: string -> bool)
    ensures ParseAsWritten(name, iso2).Success? ==> ParseAsWritten(name, iso2).value == Parse(name, iso2)
    ensures ParseAsWritten(name, iso2).Failure? ==> ParseAsWritten(name, iso2).error == IndexOutOfBounds
  {
    var parts := JavaSplit(name, ".");
    if |parts| > 1 {
      RootAndLocaleAsWrittenAgrees(parts[0], iso2);
    }
  }

  /** A base name and an extension, neither holding a '.', joined by a '.' split back into
    * the two. */
  lemma SplitNameWithExtension(b: string, e: string)
    requires e != [] && (forall k | 0 <= k < |b| :: b[k] != '.') && (forall k | 0 <= k < |e| :: e[k] != '.')
    ensures JavaSplit(b + "." + e, ".") == [b, e]
  {
    var name := b + "." + e;
    assert OccursAt(name, ".", |b|) by { assert name[|b|..|b| + 1] == "."; }
    forall j | 0 <= j < |b|
      ensures !OccursAt(name, ".", j)
    {
      assert name[j..j + 1][0] == b[j];
    }
    IndexOfFirst(name, ".", |b|);
    assert name[..|b|] == b;
    assert name[|b| + 1..] == e;
    assert !Contains(e, ".") by {
      forall k | 0 <= k <= |e| - 1
        ensures !OccursAt(e, ".", k)
      {
        assert e[k..k + 1][0] == e[k];
      }
    }
    IndexOfFindsContained(e, ".");
    assert Fields(name, ".") == [b, e];
  }

  /** A non-empty text split on itself leaves two empty fields. */
  lemma FieldsOfItself(p: string)
    requires p != []
    ensures Fields(p, p) == ["", ""]
  {
    assert OccursAt(p, p, 0) by { assert p[0..|p|] == p; }
    assert p[|p|..] == "";
    assert Fields("", p) == [""];
  }

  /** "fr" is already a lower-case current code. */
  lemma FrenchLanguageCode()
    ensures JavaLanguage("fr") == "fr"
  {
    assert AsciiLower("fr") == "fr";
  }

  /** The base name "_fr": the source's split throws, the corrected cut is empty. */
  lemma BareLocaleRoot(iso2: string -> bool)
    requires iso2("fr")
    ensures RootAndLocaleAsWritten("_fr", iso2) == Failure(IndexOutOfBounds)
    ensures RootAndLocale("_fr", iso2) == ("", Locale("fr", "", ""))
  {
    var base := "_fr";
    assert LastIndexOfChar(base, '_') == 0;
    assert base[1..] == "fr";
    FrenchLanguageCode();
    FieldsOfItself(base);
    assert JavaSplit(base, "_fr") == [];
  }

  /** The failure the source's parsing meets: for a file named "_fr.properties" with "fr" a
    * known language, the root-name split of "_fr" on "_fr" is an empty array and reading its
    * first element throws; the corrected parsing gives the empty root name. */
  lemma ParseAsWrittenFailsOnBareLocale(iso2: string -> bool)
    requires iso2("fr")
    ensures ParseAsWritten("_fr.properties", iso2) == Failure(IndexOutOfBounds)
    ensures Parse("_fr.properties", iso2) == ParsedName(Some("_fr"), Some("properties"), Some(""), Locale("fr", "", ""))
  {
    SplitNameWithExtension("_fr", "properties");
    assert "_fr" + "." + "properties" == "_fr.properties";
    BareLocaleRoot(iso2);
  }

  /** The IDE's display names for a locale's language, country and variant (the JDK's locale
    * data, which is not part of this model). */
  datatype DisplayNames = DisplayNames(language: string, country: string, variant: string)

  /** The coloured list label of a file: its name, then in parentheses the language and, when
    * the locale has them, the country and variant, each as a grey-blue span. */
  function UILabel(name: string, locale: Locale, names: DisplayNames): (r: string)
    ensures HtmlStart + name + " (" <= r
    ensures |r| >= |HtmlStart + name + " ("| + |")" + HtmlEnd|
    ensures r[|r| - |")" + HtmlEnd|..] == ")" + HtmlEnd
  {
    var opening := name + " (";
    var head := HtmlStart + opening + Span(GreyBlue400.Rgb(), "language=" + names.language);
    var withCountry := if IsBlank(locale.country) then head
                       else head + Span(GreyBlue400.Rgb(), ", country=" + names.country);
    var withVariant := if IsBlank(locale.variant) then withCountry
                       else withCountry + Span(GreyBlue400.Rgb(), ", variant=" + names.variant);
    assert HtmlStart + opening <= head <= withCountry <= withVariant;
    assert HtmlStart + name + " (" == HtmlStart + opening;
    withVariant + ")" + HtmlEnd
  }

  /** A java.util.Locale object; the plugin compares these by identity in one place. */
  class LocaleObject {
    const value: Locale

    constructor (value: Locale)
      ensures this.value == value
    {
      this.value := value;
    }
  }

  /** isRelated: a file that is a properties file (`valid`) and whose root name equals the
    * source's, but that is not the source file itself; a properties file whose root name was
    * never set throws. */
  function Related(valid: bool, rootName: Option<string>, name: string, source: TranslationFile): (r: Result<bool, Fault>)
    ensures r.Failure? <==> valid && rootName.None?
    ensures r.Failure? ==> r.error == NullPointer
    ensures r == Success(true) <==> valid && rootName.Some? && rootName == source.rootName && source.file.name != name
  {
    if !valid then Success(false)
    else if rootName.None? then Failure(NullPointer)
    else Success(rootName == source.rootName && source.file.name != name)
  }

  /** A resource-bundle file with the parts of its name and its locale. */
  class TranslationFile {
    const file: FileRef
    const baseName: Option<string>
    const extension: Option<string>
    const rootName: Option<string>
    const locale: Locale
    /** The Locale object `getLocale` returns, created afresh for every file. */
    const localeObject: LocaleObject

    /** Parses the file name into base name, extension, root name and locale. */
    constructor (file: FileRef, iso2: string -> bool)
      ensures this.file == file
      ensures ParsedName(baseName, extension, rootName, locale) == Parse(file.name, iso2)
      ensures fresh(localeObject) && localeObject.value == locale
    {
      var defaultLocale := Locale("en", "US", "Default");
      var b: Option<string>, e: Option<string>, r: Option<string> := None, None, None;
      var l := defaultLocale;
      var parts := JavaSplit(file.name, ".");
      if |parts| > 1 {
        b, e, r := Some(parts[0]), Some(parts[1]), Some(parts[0]);
        var index := LastIndexOfChar(parts[0], '_');
        if index != -1 {
          var localePart := parts[0][index + 1..];
          var language := JavaLanguage(localePart);
          if HasIso3Language(language, iso2) {
            r := Some(Fields(parts[0], "_" + localePart)[0]);
            l := Locale(language, "", "");
          }
        }
      }
      this.file := file;
      baseName, extension, rootName, locale := b, e, r, l;
      localeObject := new LocaleObject(l);
    }

    /** isValid: the IDE reads the file as a properties file. */
    predicate IsValid() {
      file.isProperties
    }

    /** isRelated: this file is another file of the source's resource bundle. */
    function IsRelated(source: TranslationFile): (r: Result<bool, Fault>)
      ensures r.Failure? <==> IsValid() && rootName.None?
      ensures r == Success(true) <==> IsValid() && rootName.Some? && rootName == source.rootName && source.file.name != file.name
    {
      Related(IsValid(), rootName, file.name, source)
    }

    /** getUILabel: the label is built with an HTML builder. */
    method GetUILabel(names: DisplayNames) returns (text: string)
      ensures text == UILabel(file.name, locale, names)
    {
      var grey := GreyBlue400.Rgb();
      var html := new HtmlString();
      var opening := file.name + " (";
      NotBlankWitness(opening, |file.name| + 1);
      html.Append(opening);
      assert html.builder == HtmlStart + opening;
      var language := "language=" + names.language;
      NotBlankWitness(language, 0);
      html.AppendColor(GreyBlue400, language);
      ghost var head := HtmlStart + opening + Span(grey, language);
      assert html.builder == head;
      if !IsBlank(locale.country) {
        var country := ", country=" + names.country;
        NotBlankWitness(country, 0);
        html.AppendColor(GreyBlue400, country);
      }
      ghost var withCountry := if IsBlank(locale.country) then head else head + Span(grey, ", country=" + names.country);
      assert html.builder == withCountry;
      if !IsBlank(locale.variant) {
        var variant := ", variant=" + names.variant;
        NotBlankWitness(variant, 0);
        html.AppendColor(GreyBlue400, variant);
      }
      ghost var withVariant := if IsBlank(locale.variant) then withCountry else withCountry + Span(grey, ", variant=" + names.variant);
      assert html.builder == withVariant;
      NotBlankWitness(")", 0);
      html.Append(")");
      assert html.builder == withVariant + ")";
      text := html.ToString();
    }
  }

  /** A file is never related to itself. */
  lemma NeverRelatedToItself(f: TranslationFile)
    ensures f.IsRelated(f) != Success(true)
  {
  }
}
