# Resource Bundle Translator — a verified model of the plugin's core

The Resource Bundle Translator is an IntelliJ plugin. It translates the `.properties` files of a
Java resource bundle through the free Google translation endpoint. This project models, in Dafny,
the parts of the plugin that decide something:

- **File names** (`TranslationFile`). A file name is split into base name, extension, root name
  and locale. Two files are related when they are siblings of one bundle. Each file gets a
  coloured list label.
- **The HTML label builder** (`HTMLString`). It is an append-only builder that ignores blank
  values. `removeHtml` strips its five markup strings again.
- **The selection model** (`PropertiesModel`). Three locale-keyed maps hold all translations,
  the candidate targets and the selected targets, plus a source field. Collect,
  change-of-source, select, unselect and the entry count change or read them.
- **The translation service** (`RBTService`). `prepare` builds the process list, `execute` runs
  the pass with its counters and its abort on the first exception, `save` writes back only
  translated processes, and `getTranslatedCount` counts the translated entries.
- **The Google provider.** `GoogleTranslationResult.getTranslation` joins the sentences.
  `GoogleTranslatorProcessor` builds the request URL, including the UTF-8 form encoding of the
  text, and makes the decisions of `translateEach`.

The modules follow the source files:

| file | module | models |
|---|---|---|
| `wrappers.dfy` | `Wrappers` | `Option`, `Result`, and `Fault`, the Java runtime exceptions the code can raise |
| `java_text.dfy` | `JavaText` | the `String` and `Character` methods the code relies on: `isBlank`, `indexOf`, `lastIndexOf`, `split`, `replace` |
| `html_string.dfy` | `HtmlStrings` | `HTMLString`: a class with a `builder` field, the `Color` enum, `removeHtml` |
| `translation_file.dfy` | `TranslationFiles` | `TranslationFile`: name parsing, `isRelated`, `getUILabel` |
| `google_result.dfy` | `GoogleResults` | `GoogleTranslationResult` |
| `engine.dfy` | `Engine` | the entry, request and process types of the i18n library the plugin uses |
| `google_processor.dfy` | `GoogleProcessor` | `GoogleTranslatorProcessor`: `buildUrl`, `URLEncoder`, `translateEach` |
| `properties_model.dfy` | `PropertiesModels` | `PropertiesModel`: a class with its maps |
| `rbt_service.dfy` | `RbtService` | `RBTService`: a class with its `processes` list |

The state-changing code is modelled by classes whose methods reassign their fields under
`modifies` clauses. This covers:

- `HtmlString.builder`;
- the fields of `PropertiesModel`;
- `RBTService.processes`.

Each such method is proved against a specification function or a stated new state. The loops of
the source are `while` loops with invariants. A Java `HashMap` is iterated in an unspecified
order, so a loop over a map picks an arbitrary remaining key (`:|`), and its contract holds for
every order.

Specification functions carry the source's ordering rules. `EntriesPass`, `ProcessPass` and
`RunPass` are the translation pass. `SaveAll` is the save loop. `ScanFiles` is the directory scan
of `collect`.

In several places the code does more or less than its Javadoc and comments say. Examples are
"Executes a set of prepared translations" (RBTService.java:92-101), "Translates a set of
translation processes" (RBTService.java:172-175), and the comments "We still have to save the
documents for the successful translations" (RBTService.java:141-142) and "Only save translations
that have been processed" (RBTService.java:235). The model follows the code:

- The first `TranslationException` aborts the whole pass, not just the current bundle
  (RBTService.java:210-214). Later processes are not attempted.
- A process is marked translated once all of its entries came through without an exception,
  even when none of them needed translating. Nothing requires a newly translated entry.
- `isRelated` also requires the file to be a properties file, and it throws when a properties
  file's root name was never set.
- Notification with the translated count happens only when the pass was not aborted. Saving
  happens in both cases.
- An exception from `getDocument` ends `save` at that process, so the later processes are not
  written. It also skips `model.refresh()`.
- `getCountEntriesToTranslate` compares Locale objects by identity. It therefore skips only a
  properties map stored under the very object of the source (`PendingSkipsSourceObject`).
- `remaining` starts at the library's count of entries needing translation. It drops by one for
  every entry the processor went through, including those that needed no translation, so it can
  end below zero.

## Model

Source paths are relative to the repository root.

| member | source | states |
|---|---|---|
| JavaText.NotBlankWitness | src/main/java/com/hemajoo/commerce/plugin/rbt/util/HTMLString.java:148 | a value holding a character that is not white space is not blank, so it is appended |
| JavaText.IndexOf | src/main/java/com/hemajoo/commerce/plugin/rbt/model/TranslationFile.java:119 | the result is -1 or an index where the pattern occurs, with no occurrence before it |
| JavaText.IndexOfFindsContained | src/main/java/com/hemajoo/commerce/plugin/rbt/model/TranslationFile.java:119 | indexOf finds an occurrence exactly when the text contains the pattern |
| JavaText.IndexOfFirst | src/main/java/com/hemajoo/commerce/plugin/rbt/model/TranslationFile.java:119 | an occurrence with none before it is the index reported |
| JavaText.LastIndexOfChar | src/main/java/com/hemajoo/commerce/plugin/rbt/model/TranslationFile.java:110 | the result is -1 or an index holding the character, with no later index holding it |
| JavaText.FirstField | src/main/java/com/hemajoo/commerce/plugin/rbt/model/TranslationFile.java:119-120 | the first piece of a split is the text before the first separator, or the whole text |
| JavaText.DropTrailingEmpty | src/main/java/com/hemajoo/commerce/plugin/rbt/model/TranslationFile.java:103 | split keeps a prefix of the pieces, drops only empty ones, and leaves no empty last piece |
| JavaText.JavaSplitKeeps | src/main/java/com/hemajoo/commerce/plugin/rbt/model/TranslationFile.java:103-104 | the pieces up to a later non-empty one are all kept |
| JavaText.JavaSplitEmpty | src/main/java/com/hemajoo/commerce/plugin/rbt/model/TranslationFile.java:119-120 | split yields an empty array exactly for a non-empty text made only of separators (both directions) |
| JavaText.RemoveAll | src/main/java/com/hemajoo/commerce/plugin/rbt/util/HTMLString.java:42-46 | replace with "" never lengthens the text |
| JavaText.RemoveAllAbsent | src/main/java/com/hemajoo/commerce/plugin/rbt/util/HTMLString.java:42-46 | removing a marker that does not occur changes nothing |
| JavaText.RemoveAllAppend | src/main/java/com/hemajoo/commerce/plugin/rbt/util/HTMLString.java:42-46 | a prefix in which no occurrence starts passes through replace unchanged |
| JavaText.RemoveAllLeading | src/main/java/com/hemajoo/commerce/plugin/rbt/util/HTMLString.java:42 | a leading occurrence of the marker is dropped |
| JavaText.NoStraddle | src/main/java/com/hemajoo/commerce/plugin/rbt/util/HTMLString.java:43-46 | no occurrence straddles the seam of two texts when the second starts with a character the pattern lacks after its first position |
| JavaText.NoOccurrenceInConcat | src/main/java/com/hemajoo/commerce/plugin/rbt/model/PropertiesModel.java:179 | a prefix without the pattern's first character adds no occurrence |
| JavaText.AsciiLower | src/main/java/com/hemajoo/commerce/plugin/rbt/model/TranslationFile.java:117 | lower-casing a language code keeps its length |
| HtmlStrings.HtmlString.constructor | src/main/java/com/hemajoo/commerce/plugin/rbt/util/HTMLString.java:108-110 | the empty builder holds exactly "<html>" |
| HtmlStrings.HtmlString.FromText | src/main/java/com/hemajoo/commerce/plugin/rbt/util/HTMLString.java:112-118 | the builder is "<html>" followed by the value, or "<html>" alone when the value is blank |
| HtmlStrings.HtmlString.FromRgb | src/main/java/com/hemajoo/commerce/plugin/rbt/util/HTMLString.java:120-131 | the builder is "<html>" and a span of the colour around the value, or "<html>" alone when it is blank |
| HtmlStrings.HtmlString.FromColor | src/main/java/com/hemajoo/commerce/plugin/rbt/util/HTMLString.java:133-144 | as FromRgb, with the named colour's CSS value |
| HtmlStrings.HtmlString.Append | src/main/java/com/hemajoo/commerce/plugin/rbt/util/HTMLString.java:146-152 | a blank value changes nothing; otherwise the old content is kept and the value follows it verbatim |
| HtmlStrings.HtmlString.AppendRgb | src/main/java/com/hemajoo/commerce/plugin/rbt/util/HTMLString.java:154-165 | a blank value changes nothing; otherwise exactly `<span style="color:` + rgb + `">` + value + `</span>` is added |
| HtmlStrings.HtmlString.AppendColor | src/main/java/com/hemajoo/commerce/plugin/rbt/util/HTMLString.java:167-178 | as AppendRgb, with the named colour's CSS value |
| HtmlStrings.HtmlString.ToString | src/main/java/com/hemajoo/commerce/plugin/rbt/util/HTMLString.java:180-183 | the document starts with "<html>", is the content followed by "</html>", and ends with "</html>" |
| HtmlStrings.ConstructorsMatchAppend | src/main/java/com/hemajoo/commerce/plugin/rbt/util/HTMLString.java:108-178 | each value-taking constructor builds the document that the empty constructor and the matching append build |
| HtmlStrings.EndTagHoldsNoOtherMarkup | src/main/java/com/hemajoo/commerce/plugin/rbt/util/HTMLString.java:30-34 | "</html>" holds none of the other four markup strings |
| HtmlStrings.RemoveAbsentBeforeEndTag | src/main/java/com/hemajoo/commerce/plugin/rbt/util/HTMLString.java:43-45 | a pass of removeHtml for a marker absent from the text and the end tag leaves text + "</html>" unchanged |
| HtmlStrings.RemoveHtmlOfDocument | src/main/java/com/hemajoo/commerce/plugin/rbt/util/HTMLString.java:38-49 | for text without markup, removeHtml("<html>" + text + "</html>") is the text |
| HtmlStrings.RemoveHtmlOfOpenedText | src/main/java/com/hemajoo/commerce/plugin/rbt/util/HTMLString.java:38-49 | for text without markup, removeHtml("<html>" + text) is the text |
| HtmlStrings.TextDocumentRoundTrip | src/main/java/com/hemajoo/commerce/plugin/rbt/util/HTMLString.java:112-118 | removeHtml(new HTMLString(v).toString()) is v for non-blank v without markup, and "" for blank v |
| HtmlStrings.RemoveHtmlLeavesJoinedMarkup | src/main/java/com/hemajoo/commerce/plugin/rbt/util/HTMLString.java:38-49 | one pass per marker can join a new marker that stays: removeHtml("<ht<html>ml>") is "<html>" |
| HtmlStrings.FirstPassJoinsStartTag | src/main/java/com/hemajoo/commerce/plugin/rbt/util/HTMLString.java:42 | the first replace turns "<ht<html>ml>" into "<html>" |
| HtmlStrings.StartTagSurvivesLaterPasses | src/main/java/com/hemajoo/commerce/plugin/rbt/util/HTMLString.java:43-46 | the four later replaces leave "<html>" as it is |
| TranslationFiles.FieldsAllEmpty | src/main/java/com/hemajoo/commerce/plugin/rbt/model/TranslationFile.java:103 | splitting on one character gives only empty pieces exactly when the text is nothing but that character |
| TranslationFiles.SplitOnDot | src/main/java/com/hemajoo/commerce/plugin/rbt/model/TranslationFile.java:103-104 | a name splits into more than one piece exactly when some character after its first '.' is not a '.' |
| TranslationFiles.ParseSetsNames | src/main/java/com/hemajoo/commerce/plugin/rbt/model/TranslationFile.java:99-131 | the base name is set exactly when some character after the first '.' is not a '.'; otherwise no field is set and the locale is ("en","US","Default") |
| TranslationFiles.NameWithoutDot | src/main/java/com/hemajoo/commerce/plugin/rbt/model/TranslationFile.java:99-104 | a name without '.' leaves base name, extension and root name unset and gets the default locale |
| TranslationFiles.FirstFieldOfChar | src/main/java/com/hemajoo/commerce/plugin/rbt/model/TranslationFile.java:106-107 | the first piece is a prefix without the separator, followed by the separator or the end |
| TranslationFiles.SplitOnDotPieces | src/main/java/com/hemajoo/commerce/plugin/rbt/model/TranslationFile.java:103-107 | piece 0 is the text before the first '.', piece 1 the text after it up to the next '.' or the end |
| TranslationFiles.ParseBaseNameAndExtension | src/main/java/com/hemajoo/commerce/plugin/rbt/model/TranslationFile.java:103-108 | baseName is the text before the first '.', and extension the text between the first '.' and the next one or the end |
| TranslationFiles.RootAndLocaleRejected | src/main/java/com/hemajoo/commerce/plugin/rbt/model/TranslationFile.java:108-127 | no '_', or a last segment the JDK rejects as a language, gives rootName = baseName and the default locale |
| TranslationFiles.LocaleSegment | src/main/java/com/hemajoo/commerce/plugin/rbt/model/TranslationFile.java:110-119 | the segment after the last '_' holds no '_', and "_" + segment first occurs at or before that '_' |
| TranslationFiles.RootAndLocaleAccepted | src/main/java/com/hemajoo/commerce/plugin/rbt/model/TranslationFile.java:110-122 | an accepted segment becomes the language with no country or variant, and the root name is the base name cut at the first "_" + segment |
| TranslationFiles.RootAndLocaleAsWrittenAgrees | src/main/java/com/hemajoo/commerce/plugin/rbt/model/TranslationFile.java:119-120 | the as-written root-name step either throws an index error or agrees with the corrected one |
| TranslationFiles.ParseAsWrittenAgrees | src/main/java/com/hemajoo/commerce/plugin/rbt/model/TranslationFile.java:97-132 | the as-written parsing either throws an index error or agrees with the corrected parsing |
| TranslationFiles.SplitNameWithExtension | src/main/java/com/hemajoo/commerce/plugin/rbt/model/TranslationFile.java:103 | a base and an extension without '.', joined by '.', split back into the two |
| TranslationFiles.FieldsOfItself | src/main/java/com/hemajoo/commerce/plugin/rbt/model/TranslationFile.java:119 | a text split on itself leaves two empty pieces |
| TranslationFiles.FrenchLanguageCode | src/main/java/com/hemajoo/commerce/plugin/rbt/model/TranslationFile.java:117 | new Locale("fr") keeps the code "fr" |
| TranslationFiles.BareLocaleRoot | src/main/java/com/hemajoo/commerce/plugin/rbt/model/TranslationFile.java:119-120 | for base name "_fr", the as-written step throws and the corrected one gives root "" and language "fr" |
| TranslationFiles.ParseAsWrittenFailsOnBareLocale | src/main/java/com/hemajoo/commerce/plugin/rbt/model/TranslationFile.java:119-120 | parsing "_fr.properties" as written throws an index error; the corrected parsing gives base "_fr", extension "properties", root "" |
| TranslationFiles.TranslationFile.constructor | src/main/java/com/hemajoo/commerce/plugin/rbt/model/TranslationFile.java:97-132 | the fields of a new file are the corrected parsing of its name, and its Locale object is fresh |
| TranslationFiles.Related | src/main/java/com/hemajoo/commerce/plugin/rbt/model/TranslationFile.java:148-151 | true iff the file is valid, the root names are equal and the file names differ; a valid file without root name throws |
| TranslationFiles.TranslationFile.IsRelated | src/main/java/com/hemajoo/commerce/plugin/rbt/model/TranslationFile.java:148-151 | isRelated holds iff valid, same root name and different file name; it throws iff valid with no root name |
| TranslationFiles.NeverRelatedToItself | src/main/java/com/hemajoo/commerce/plugin/rbt/model/TranslationFile.java:148-151 | a file is never related to itself |
| TranslationFiles.UILabel | src/main/java/com/hemajoo/commerce/plugin/rbt/model/TranslationFile.java:166-183 | the label starts with "<html>" + name + " (" and ends with ")" + "</html>" |
| TranslationFiles.TranslationFile.GetUILabel | src/main/java/com/hemajoo/commerce/plugin/rbt/model/TranslationFile.java:166-183 | the builder is appended name + " (", the language span, the country span only for a non-blank country, the variant span only for a non-blank variant, and ")" |
| GoogleResults.GetTranslation | src/main/java/com/hemajoo/commerce/plugin/rbt/translation/GoogleTranslationResult.java:71-76 | the in-order join of the sentence texts; a null sentence list throws, and only then |
| GoogleResults.JoinedEmpty | src/main/java/com/hemajoo/commerce/plugin/rbt/translation/GoogleTranslationResult.java:73-75 | no sentences give "" |
| GoogleResults.JoinedAppend | src/main/java/com/hemajoo/commerce/plugin/rbt/translation/GoogleTranslationResult.java:73-75 | the translation of two lists one after the other is the concatenation of their translations |
| GoogleResults.JoinedLength | src/main/java/com/hemajoo/commerce/plugin/rbt/translation/GoogleTranslationResult.java:73-75 | the length of the translation is the sum of the lengths of the sentence texts |
| GoogleResults.JoinedAt | src/main/java/com/hemajoo/commerce/plugin/rbt/translation/GoogleTranslationResult.java:73-75 | each sentence's text stands right after the texts of the sentences before it |
| GoogleResults.NullTextReadsNull | src/main/java/com/hemajoo/commerce/plugin/rbt/translation/GoogleTranslationResult.java:74-75 | a sentence with a null text contributes "null" |
| Engine.SetResult | src/main/java/com/hemajoo/commerce/plugin/rbt/translation/GoogleTranslatorProcessor.java:98 | key, text and flag are kept; the result and the time stamp are recorded |
| GoogleProcessor.Utf8 | src/main/java/com/hemajoo/commerce/plugin/rbt/translation/GoogleTranslatorProcessor.java:121 | a character encodes to one to four bytes |
| GoogleProcessor.PercentEncoded | src/main/java/com/hemajoo/commerce/plugin/rbt/translation/GoogleTranslatorProcessor.java:121 | each byte takes three characters |
| GoogleProcessor.HexDigitValue | src/main/java/com/hemajoo/commerce/plugin/rbt/translation/GoogleTranslatorProcessor.java:121 | an upper-case hexadecimal digit reads back as its value |
| GoogleProcessor.PercentEncodedAt | src/main/java/com/hemajoo/commerce/plugin/rbt/translation/GoogleTranslatorProcessor.java:121 | byte k is written as '%' and two digits at positions 3k to 3k + 2 |
| GoogleProcessor.ByteAtEncoded | src/main/java/com/hemajoo/commerce/plugin/rbt/translation/GoogleTranslatorProcessor.java:121 | byte k reads back from position 3k of the encoding |
| GoogleProcessor.DecodePercentEncoded | src/main/java/com/hemajoo/commerce/plugin/rbt/translation/GoogleTranslatorProcessor.java:121 | the percent encoding of a character decodes back to it, using three characters per UTF-8 byte |
| GoogleProcessor.DecodeEncodedChar | src/main/java/com/hemajoo/commerce/plugin/rbt/translation/GoogleTranslatorProcessor.java:121 | decoding an encoded character followed by more text gives the character followed by the decoded rest |
| GoogleProcessor.UrlEncodeRoundTrip | src/main/java/com/hemajoo/commerce/plugin/rbt/translation/GoogleTranslatorProcessor.java:121 | URL decoding undoes the form encoding of every text |
| GoogleProcessor.PercentEncodedIsSafe | src/main/java/com/hemajoo/commerce/plugin/rbt/translation/GoogleTranslatorProcessor.java:121 | percent-encoded bytes are only '%' and hexadecimal digits |
| GoogleProcessor.UrlEncodeIsSafe | src/main/java/com/hemajoo/commerce/plugin/rbt/translation/GoogleTranslatorProcessor.java:121 | encoded text holds only unreserved characters, '+' and '%', so no space, '&' or '=' |
| GoogleProcessor.UrlEncodeLacksAmpersand | src/main/java/com/hemajoo/commerce/plugin/rbt/translation/GoogleTranslatorProcessor.java:121-122 | encoded text holds no '&', so it cannot break the query string |
| GoogleProcessor.EndpointShape | src/main/java/com/hemajoo/commerce/plugin/rbt/translation/GoogleTranslatorProcessor.java:44 | the API prefix is the endpoint followed by "&sl=", and the endpoint holds no '&' |
| GoogleProcessor.BuildUrlPieces | src/main/java/com/hemajoo/commerce/plugin/rbt/translation/GoogleTranslatorProcessor.java:119-123 | the URL is the endpoint, then sl, tl, dt=t, q=encoded text and dj=1, each after an '&' |
| GoogleProcessor.FieldsOfJoined | src/main/java/com/hemajoo/commerce/plugin/rbt/translation/GoogleTranslatorProcessor.java:122 | pieces without '&' joined by '&' split back into the pieces |
| GoogleProcessor.BuildUrlParameters | src/main/java/com/hemajoo/commerce/plugin/rbt/translation/GoogleTranslatorProcessor.java:119-123 | the URL's '&'-separated fields are exactly the endpoint, "sl=" + source, "tl=" + target, "dt=t", "q=" + encoded text, "dj=1" |
| GoogleProcessor.TranslateEach | src/main/java/com/hemajoo/commerce/plugin/rbt/translation/GoogleTranslatorProcessor.java:78-110 | a request is made iff the entry needs translating, to the URL for the request's locales; no request leaves the entry as it is; success iff status 200 with a readable answer, and then the result is recorded; another status throws the reason wrapped |
| GoogleProcessor.TranslationKeepsEntry | src/main/java/com/hemajoo/commerce/plugin/rbt/translation/GoogleTranslatorProcessor.java:84-98 | a successful translation keeps key, text and flag and records a result and the time stamp |
| PropertiesModels.PureText | src/main/java/com/hemajoo/commerce/plugin/rbt/model/PropertiesModel.java:179-180 | reading parts[0] throws exactly for a non-empty caption made only of " (" pieces |
| PropertiesModels.CaptionCut | src/main/java/com/hemajoo/commerce/plugin/rbt/model/PropertiesModel.java:179-180 | "<html>" + name + anything starting with " (" cuts and strips to the name |
| PropertiesModels.LabelRoundTrip | src/main/java/com/hemajoo/commerce/plugin/rbt/model/PropertiesModel.java:179-180 | cutting getUILabel() at " (" and stripping the markup gives back the file name, for a name with no " (" and no markup |
| PropertiesModels.ScanCrashes | src/main/java/com/hemajoo/commerce/plugin/rbt/model/PropertiesModel.java:133-140 | the scan throws exactly when some file of the directory throws in isRelated |
| PropertiesModels.ScanStaysCrashed | src/main/java/com/hemajoo/commerce/plugin/rbt/model/PropertiesModel.java:133-140 | once a file has thrown, no later file is looked at |
| PropertiesModels.ScanFindsRelated | src/main/java/com/hemajoo/commerce/plugin/rbt/model/PropertiesModel.java:133-139 | every file collected is a file of the directory, related to the source, and stored under its own locale |
| PropertiesModels.ScanKeepsLast | src/main/java/com/hemajoo/commerce/plugin/rbt/model/PropertiesModel.java:136-139 | a related file that no later related file of the same locale follows stays under its locale, so later files overwrite earlier ones |
| PropertiesModels.PendingOverAny | src/main/java/com/hemajoo/commerce/plugin/rbt/model/PropertiesModel.java:231-237 | the count does not depend on the order the map is iterated in |
| PropertiesModels.SizeOverAny | src/main/java/com/hemajoo/commerce/plugin/rbt/model/PropertiesModel.java:231-237 | the total size does not depend on the iteration order |
| PropertiesModels.PendingOverIsSize | src/main/java/com/hemajoo/commerce/plugin/rbt/model/PropertiesModel.java:231-237 | with no map under the source's Locale object, the count is the total size |
| PropertiesModels.PendingSkipsSourceObject | src/main/java/com/hemajoo/commerce/plugin/rbt/model/PropertiesModel.java:227-240 | the count is the total size less the size of the map stored under the source's own Locale object (identity, not equality) |
| PropertiesModels.PropertiesModel.constructor | src/main/java/com/hemajoo/commerce/plugin/rbt/model/PropertiesModel.java:91-103 | for a valid source, translations is exactly {source.locale ↦ source} and the other maps are empty |
| PropertiesModels.PropertiesModel.Create | src/main/java/com/hemajoo/commerce/plugin/rbt/model/PropertiesModel.java:91-103 | it fails iff the source is invalid; otherwise the new model holds only the source |
| PropertiesModels.PropertiesModel.Collect | src/main/java/com/hemajoo/commerce/plugin/rbt/model/PropertiesModel.java:128-141 | a null directory throws and nothing changes; otherwise the translations gain the scanned related files under their locales, and it fails iff a file threw (the files put before that stay); the other fields are unchanged |
| PropertiesModels.PropertiesModel.ScanDirectory | src/main/java/com/hemajoo/commerce/plugin/rbt/model/PropertiesModel.java:133-140 | the loop builds the files found by the scan under their locales, and reports whether a file threw |
| PropertiesModels.PropertiesModel.TargetTranslationByName | src/main/java/com/hemajoo/commerce/plugin/rbt/model/PropertiesModel.java:177-191 | a caption whose split is empty throws; otherwise it succeeds iff some translation's file name equals the pure text, and returns that translation |
| PropertiesModels.PropertiesModel.SourceTranslationChanged | src/main/java/com/hemajoo/commerce/plugin/rbt/model/PropertiesModel.java:156-168 | it succeeds iff the caption names a translation; failure changes nothing; success sets that source, empties the selection and adds every differently-named translation to the kept candidates |
| PropertiesModels.PropertiesModel.CandidatesBesides | src/main/java/com/hemajoo/commerce/plugin/rbt/model/PropertiesModel.java:161-167 | the loop gives the old candidates and every translation with another name, under its locale |
| PropertiesModels.PropertiesModel.UnselectTarget | src/main/java/com/hemajoo/commerce/plugin/rbt/model/PropertiesModel.java:197-206 | the selection loses exactly its files with the name; everything else is unchanged |
| PropertiesModels.PropertiesModel.SelectionWithout | src/main/java/com/hemajoo/commerce/plugin/rbt/model/PropertiesModel.java:199-205 | the loop gives the selection without the files of the name |
| PropertiesModels.PropertiesModel.SelectTarget | src/main/java/com/hemajoo/commerce/plugin/rbt/model/PropertiesModel.java:212-221 | the selection gains exactly the candidates with the name, under their keys; everything else is unchanged |
| PropertiesModels.PropertiesModel.SelectionWith | src/main/java/com/hemajoo/commerce/plugin/rbt/model/PropertiesModel.java:214-220 | the loop gives the selection and the candidates of the name |
| PropertiesModels.PropertiesModel.CountEntriesToTranslate | src/main/java/com/hemajoo/commerce/plugin/rbt/model/PropertiesModel.java:227-240 | the loop sums the sizes of the maps not stored under the source's Locale object |
| PropertiesModels.CandidatesKeyed | src/main/java/com/hemajoo/commerce/plugin/rbt/model/PropertiesModel.java:161-167 | the new candidates stay keyed by locale and within the bundle |
| PropertiesModels.SelectUnknownName | src/main/java/com/hemajoo/commerce/plugin/rbt/model/PropertiesModel.java:212-221 | selecting a name that no candidate has changes nothing |
| PropertiesModels.SelectIdempotent | src/main/java/com/hemajoo/commerce/plugin/rbt/model/PropertiesModel.java:212-221 | selecting a name twice equals selecting it once |
| PropertiesModels.UnselectUnknownName | src/main/java/com/hemajoo/commerce/plugin/rbt/model/PropertiesModel.java:197-206 | unselecting a name that no selected file has changes nothing |
| PropertiesModels.SelectThenUnselect | src/main/java/com/hemajoo/commerce/plugin/rbt/model/PropertiesModel.java:197-221 | select then unselect of a name leaves the old selection without that name |
| RbtService.StampedAtMostAll | src/main/java/com/hemajoo/commerce/plugin/rbt/service/RBTService.java:268-274 | no more entries are stamped than there are |
| RbtService.TranslatedCountAtMostTotal | src/main/java/com/hemajoo/commerce/plugin/rbt/service/RBTService.java:262-278 | the translated count never exceeds the total number of entries |
| RbtService.StampedAll | src/main/java/com/hemajoo/commerce/plugin/rbt/service/RBTService.java:268-274 | the stamped count is the number of entries iff every entry is stamped |
| RbtService.PrepareProcesses | src/main/java/com/hemajoo/commerce/plugin/rbt/service/RBTService.java:151-169 | each process is a fresh request from the source to a selected target and needs processing; every selected target that needs processing has one; no target has two |
| RbtService.PreparedStep | src/main/java/com/hemajoo/commerce/plugin/rbt/service/RBTService.java:159-168 | one more selected target keeps the loop invariant, adding its process iff it needs processing |
| RbtService.PreparedOverAll | src/main/java/com/hemajoo/commerce/plugin/rbt/service/RBTService.java:159-168 | once every selected target was looked at, the processes are as prepare promises |
| RbtService.RBTService.Prepare | src/main/java/com/hemajoo/commerce/plugin/rbt/service/RBTService.java:151-169 | the process list is rebuilt from scratch as PrepareProcesses states, for the model's source and selection |
| RbtService.RBTService.Totals | src/main/java/com/hemajoo/commerce/plugin/rbt/service/RBTService.java:178-188 | total is the sum of the entry-list sizes and remaining starts as the sum of the counts |
| RbtService.RBTService.Execute | src/main/java/com/hemajoo/commerce/plugin/rbt/service/RBTService.java:176-221 | with remaining 0, nothing is processed and the processes are unchanged; otherwise the processes are those of the pass, remaining drops by one per entry gone through, and an exception aborts the pass |
| RbtService.RBTService.RunProcesses | src/main/java/com/hemajoo/commerce/plugin/rbt/service/RBTService.java:191-215 | the loop leaves the processes, the exception and the number of entries of the pass |
| RbtService.RBTService.TakeTurn | src/main/java/com/hemajoo/commerce/plugin/rbt/service/RBTService.java:195-207 | the turn of one process is ProcessPass: no work unless it needs processing, marked translated once its entries came through |
| RbtService.RBTService.TranslateEntries | src/main/java/com/hemajoo/commerce/plugin/rbt/service/RBTService.java:197-205 | the inner loop yields the entries, the exception and the count of the entry pass |
| RbtService.EntriesPassShape | src/main/java/com/hemajoo/commerce/plugin/rbt/service/RBTService.java:197-201 | the entry count is kept; a pass without an exception went through every entry |
| RbtService.EntriesPassAfterFailure | src/main/java/com/hemajoo/commerce/plugin/rbt/service/RBTService.java:197-214 | after the processor threw, the later entries stay as they were |
| RbtService.EntriesPassAllTranslated | src/main/java/com/hemajoo/commerce/plugin/rbt/service/RBTService.java:197-201 | without an exception each entry, in list order, is the processor's result for it |
| RbtService.EntriesPassStep | src/main/java/com/hemajoo/commerce/plugin/rbt/service/RBTService.java:200-201 | one more entry: it is replaced and counted on success, and ends the pass on an exception |
| RbtService.RunPassStep | src/main/java/com/hemajoo/commerce/plugin/rbt/service/RBTService.java:191-208 | one more process takes its turn in a pass not yet aborted |
| RbtService.RunPassAfterFailure | src/main/java/com/hemajoo/commerce/plugin/rbt/service/RBTService.java:210-214 | after an abort, the later processes are left as they were |
| RbtService.RunPassShape | src/main/java/com/hemajoo/commerce/plugin/rbt/service/RBTService.java:191-208 | the pass keeps the number of processes, their requests except the entries, and each entry count |
| RbtService.TranslatedOnlyWhenAllSucceeded | src/main/java/com/hemajoo/commerce/plugin/rbt/service/RBTService.java:195-207 | a process newly marked translated needed processing, and each of its entries went through the processor without an exception |
| RbtService.CompletedPassTranslatesAll | src/main/java/com/hemajoo/commerce/plugin/rbt/service/RBTService.java:191-208 | a pass without an exception marks every process that needed processing translated |
| RbtService.AbortedPassStops | src/main/java/com/hemajoo/commerce/plugin/rbt/service/RBTService.java:191-215 | an aborted pass has a process k before which all turns succeeded; k threw; every process after k is untouched |
| RbtService.CompletedPassSuccesses | src/main/java/com/hemajoo/commerce/plugin/rbt/service/RBTService.java:195-201 | a completed pass goes through exactly the entries of the processes that need processing |
| RbtService.GoogleKeepsUntranslatedEntries | src/main/java/com/hemajoo/commerce/plugin/rbt/translation/GoogleTranslatorProcessor.java:84-105 | with the Google processor, an entry that needs no translation comes out of the pass unchanged |
| RbtService.RBTService.Save | src/main/java/com/hemajoo/commerce/plugin/rbt/service/RBTService.java:228-256 | the writes and the exception are those of SaveAll over the processes |
| RbtService.SavesOnlyTranslated | src/main/java/com/hemajoo/commerce/plugin/rbt/service/RBTService.java:233-253 | every write belongs to a translated process with an open document, and holds its rebuilt text |
| RbtService.SavesEveryTranslated | src/main/java/com/hemajoo/commerce/plugin/rbt/service/RBTService.java:233-253 | saving without an exception writes, in process order, exactly one write per translated process with an open document: write k holds the rebuilt document of the k-th such process (`ToSave`) |
| RbtService.NothingTranslatedNothingSaved | src/main/java/com/hemajoo/commerce/plugin/rbt/service/RBTService.java:236 | with no process translated, nothing is written |
| RbtService.SaveAllAfterFailure | src/main/java/com/hemajoo/commerce/plugin/rbt/service/RBTService.java:243 | once getDocument threw, nothing more is written |
| RbtService.RBTService.GetTranslatedCount | src/main/java/com/hemajoo/commerce/plugin/rbt/service/RBTService.java:262-278 | the count is the number of entries over all processes with a time stamp |
| RbtService.RBTService.ExecuteBackground | src/main/java/com/hemajoo/commerce/plugin/rbt/service/RBTService.java:102-146 | there is a prepared process list such that, when nothing is pending, the outcome is NothingToTranslate and it stays the process list, and otherwise the final processes and the outcome (Completed, or Aborted with the first exception) are those of the pass over it; the translated count is reported iff the pass was not aborted; saving happens in every case, over the processes the pass left |

## Left out

- I/O and the IDE are parameters, throughout. These are: file-system listing (the `directory` of
  `Collect`); `PsiDocumentManager` (`hasDocument`); document reading in
  `I18nGoogleTranslationRequest` (`readEntries`); the HTTP exchange (`http`); the clock (`now`);
  and the JDK's ISO 639 table (`iso2`). Their code is not part of this model.
- The i18n library (`requireProcessing`, `getCount`, `getDocument`) is not part of this model:
  `Library` holds them as functions of the request. Entries written back by `hasBeenTranslated`
  and `setResult` are modelled as the library's observable effect only.
- Notifications, the progress indicator, its fractions and texts (RBTService.java:126-133,
  199-204) and the background task scheduling are left out: they are IDE plumbing and floating
  point.
- `document.setText` inside a write command (RBTService.java:244-250) is modelled as a `Write`
  record. `model.refresh()`, `TranslationFile.refresh` and `PropertiesModel.refresh` are
  file-system refreshes and are left out.
- Locale display names are a parameter (`DisplayNames`). The global `Locale.setDefault` and
  `isValid()`'s language lookup are left out: `isValid()` is a boolean of the file.
- Gson deserialisation and `getResponseString` are abstracted into `Body`: parsed, unreadable (an
  I/O error) or malformed.
- Java `int` overflow is not modelled: `total`, `remaining` and the counts are unbounded.
- `split` takes a regular expression, but the model splits on the literal text. For the locale
  split `"_" + localePart` this differs when the segment holds regular-expression metacharacters.
  The dot split and the `" \\("` split are literal in any case.
- `unselectTarget` removes entries while it iterates the map. In Java that can raise a
  ConcurrentModificationException. The model removes every match instead.
- `PropertiesModel.translatedEntries` and the `properties` map are kept as fields, but no
  operation of the core writes them. `getCountEntriesToTranslate` reads the map as given.
- `Collect` models a directory that does not exist as `Failure(Crash(NullPointer))`. A throwing
  file ends the scan, and the files put before it stay.
- GoogleResults.GetProviderType: no contract; it is the constant `GoogleFreeTranslateApi`, so
  nothing is stated beyond its body.
- RbtService.RBTService.Execute: the counter `remaining` is stated as one subtraction of the
  number of entries gone through, not as the per-entry steps.
- PropertiesModels.PropertiesModel.Collect: the scan builds each file's `TranslationFile` with
  the corrected parse, so a sibling named like `_fr.properties` does not throw. In Java the
  constructor throws ArrayIndexOutOfBoundsException there (TranslationFile.java:119-120) and
  `collect` stops at that file (see "## Findings"). The crash condition stated covers only
  `isRelated`'s NullPointerException.
- The HTTP exchange `http` is a function of the URL. Two entries of one request with the same
  text and languages therefore get the same answer, although the program sends a separate
  request for each entry and the service could answer them differently.
- Engine.SetResult: the library's `setResult` is not part of this model. The model assumes it
  records the result and the time stamp and keeps the key, the text and `requireTranslation`.
- Dafny strings hold Unicode scalar values and Java strings hold UTF-16 code units. An unpaired
  surrogate, which `URLEncoder` writes as `%3F`, cannot be expressed, so `UrlEncode` never
  meets one.
- Null documents in the request (`Objects.requireNonNull` in I18nGoogleTranslationRequest.java)
  are left out, because reading happens in foreign code.

## Findings

| source | as written | input that shows it | evidently intended | confidence | as-written member | corrected member |
|---|---|---|---|---|---|---|
| src/main/java/com/hemajoo/commerce/plugin/rbt/model/TranslationFile.java:119-120 | the root name is element 0 of `rootName.split("_" + localePart)`; when the base name is nothing but that suffix, split returns an empty array and `otherParts[0]` throws ArrayIndexOutOfBoundsException | a file named `_fr.properties`, where "fr" is a known language | the root name is the text before the first `"_" + localePart`, here the empty string | not executed | TranslationFiles.ParseAsWrittenFailsOnBareLocale | TranslationFiles.RootAndLocaleAccepted |
