/**
 * PropertiesModel: the selection state of the tool window. It holds all the translation files
 * of a resource bundle, the source file, the candidate target files and the selected target
 * files, each map keyed by locale.
 */
module PropertiesModels {
  import opened Wrappers
  import opened JavaText
  import opened HtmlStrings
  import opened TranslationFiles

  /** Why an operation of the model failed. */
  datatype ModelError =
    | InvalidSource            // the source file is not a properties file
    | NoSuchFile(name: string) // no translation file has the name of the caption
    | Crash(fault: Fault)      // a runtime exception of the Java code

  /** A loaded properties file: the Locale object it is stored under and its number of entries. */
  datatype LoadedProperties = LoadedProperties(key: LocaleObject, size: nat)

  /** Every file is stored under its own locale. */
  predicate LocaleKeyed(m: map<Locale, TranslationFile>) {
    forall l | l in m :: m[l].locale == l
  }

  /** The part of a list caption that names the file: the caption up to its first " (", with the
    * markup removed; a caption made only of " (" leaves no part and the lookup crashes. */
  function PureText(caption: string): (r: Result<string, Fault>)
    ensures r.Failure? ==> caption != [] && forall i | 0 <= i < |Fields(caption, " (")| :: Fields(caption, " (")[i] == ""
    ensures (caption != [] && forall i | 0 <= i < |Fields(caption, " (")| :: Fields(caption, " (")[i] == "") ==> r.Failure?
    ensures r.Failure? ==> r.error == IndexOutOfBounds
  {
    JavaSplitEmpty(caption, " (");
    var parts := JavaSplit(caption, " (");
    if |parts| == 0 then Failure(IndexOutOfBounds) else Success(RemoveHtml(parts[0]))
  }

  /** The entries of `m` among `keys` whose file has the name `name`. */
  function Named(m: map<Locale, TranslationFile>, keys: set<Locale>, name: string): map<Locale, TranslationFile> {
    map l | l in keys && l in m && m[l].file.name == name :: m[l]
  }

  /** The entries of `m` among `keys` whose file has another name than `name`. */
  function Unnamed(m: map<Locale, TranslationFile>, keys: set<Locale>, name: string): map<Locale, TranslationFile> {
    map l | l in keys && l in m && m[l].file.name != name :: m[l]
  }

  // ---------------------------------------------------------------------------------------
  // collect: the related files of the source's directory
  // ---------------------------------------------------------------------------------------

  /** isRelated of the translation file made for `f`. */
  function FileRelation(f: FileRef, iso2: string -> bool, source: TranslationFile): Result<bool, Fault> {
    Related(f.isProperties, Parse(f.name, iso2).rootName, f.name, source)
  }

  /** isRelated to `source`, file by file. */
  function RelationTo(iso2: string -> bool, source: TranslationFile): FileRef -> Result<bool, Fault> {
    (f: FileRef) => FileRelation(f, iso2, source)
  }

  /** The locale parsed from a file's name, file by file. */
  function LocaleOf(iso2: string -> bool): FileRef -> Locale {
    (f: FileRef) => Parse(f.name, iso2).locale
  }

  /** The outcome of scanning a directory in order: the related files put under their
    * locales so far, and whether a file threw. */
  datatype Scan = Scan(found: map<Locale, FileRef>, crashed: bool)

  /** collect over the files in directory order, stopping at the first file that throws;
    * `relation` is isRelated and `localeOf` the parsed locale of a file. */
  function ScanFiles(files: seq<FileRef>, relation: FileRef -> Result<bool, Fault>, localeOf: FileRef -> Locale): Scan
    decreases |files|
  {
    if files == [] then Scan(map[], false)
    else
      var before := ScanFiles(files[..|files| - 1], relation, localeOf);
      var f := files[|files| - 1];
      if before.crashed then before
      else match relation(f)
        case Failure(_) => Scan(before.found, true)
        case Success(related) =>
          if related then Scan(before.found[localeOf(f) := f], false) else before
  }

  /** The scan throws exactly when some file of the directory throws. */
  lemma {:induction false} ScanCrashes(files: seq<FileRef>, relation: FileRef -> Result<bool, Fault>, localeOf: FileRef -> Locale)
    ensures ScanFiles(files, relation, localeOf).crashed <==> exists i | 0 <= i < |files| :: relation(files[i]).Failure?
    decreases |files|
  {
    if files != [] {
      var init := files[..|files| - 1];
      ScanCrashes(init, relation, localeOf);
      if exists i | 0 <= i < |init| :: relation(init[i]).Failure? {
        var i :| 0 <= i < |init| && relation(init[i]).Failure?;
        assert files[i] == init[i];
      }
      if exists i | 0 <= i < |files| :: relation(files[i]).Failure? {
        var i :| 0 <= i < |files| && relation(files[i]).Failure?;
        if i < |init| {
          assert init[i] == files[i];
        }
      }
    }
  }

  /** Once the scan of a prefix has thrown, the files after it are not looked at. */
  lemma {:induction false} ScanStaysCrashed(files: seq<FileRef>, relation: FileRef -> Result<bool, Fault>, localeOf: FileRef -> Locale, n: nat)
    requires n <= |files| && ScanFiles(files[..n], relation, localeOf).crashed
    ensures ScanFiles(files, relation, localeOf) == ScanFiles(files[..n], relation, localeOf)
    decreases |files| - n
  {
    if n < |files| {
      assert files[..n + 1][..n] == files[..n];
      ScanStaysCrashed(files, relation, localeOf, n + 1);
    } else {
      assert files[..n] == files;
    }
  }

  /** Every file collected is a related file of the directory, stored under its own locale. */
  lemma {:induction false} ScanFindsRelated(files: seq<FileRef>, relation: FileRef -> Result<bool, Fault>, localeOf: FileRef -> Locale)
    ensures forall l | l in ScanFiles(files, relation, localeOf).found ::
              ScanFiles(files, relation, localeOf).found[l] in files
              && relation(ScanFiles(files, relation, localeOf).found[l]) == Success(true)
              && localeOf(ScanFiles(files, relation, localeOf).found[l]) == l
    decreases |files|
  {
    if files != [] {
      var init := files[..|files| - 1];
      ScanFindsRelated(init, relation, localeOf);
      assert forall f | f in init :: f in files;
    }
  }

  /** A related file that no later related file of the same locale follows is the one that
    * stays collected under its locale: a later file overwrites an earlier one. */
  lemma {:induction false} ScanKeepsLast(files: seq<FileRef>, relation: FileRef -> Result<bool, Fault>, localeOf: FileRef -> Locale, i: nat)
    requires !ScanFiles(files, relation, localeOf).crashed
    requires i < |files| && relation(files[i]) == Success(true)
    requires forall j | i < j < |files| :: relation(files[j]) == Success(true) ==> localeOf(files[j]) != localeOf(files[i])
    ensures localeOf(files[i]) in ScanFiles(files, relation, localeOf).found
    ensures ScanFiles(files, relation, localeOf).found[localeOf(files[i])] == files[i]
    decreases |files|
  {
    var init := files[..|files| - 1];
    var before := ScanFiles(init, relation, localeOf);
    assert !before.crashed;
    if i < |files| - 1 {
      forall j | i < j < |init| && relation(init[j]) == Success(true)
        ensures localeOf(init[j]) != localeOf(init[i])
      {
        assert init[j] == files[j];
      }
      ScanKeepsLast(init, relation, localeOf, i);
      assert init[i] == files[i];
    }
  }

  // ---------------------------------------------------------------------------------------
  // getCountEntriesToTranslate: a sum over the loaded properties files
  // ---------------------------------------------------------------------------------------

  /** What a loaded properties file adds to the count: its size, unless it is stored under
    * the very Locale object of the source. */
  function Pending(p: LoadedProperties, source: LocaleObject): nat {
    if p.key != source then p.size else 0
  }

  /** The sum of `Pending` over the files stored under `keys`. */
  ghost function PendingOver(props: map<Locale, LoadedProperties>, keys: set<Locale>, source: LocaleObject): nat
    requires keys <= props.Keys
    decreases |keys|
  {
    if keys == {} then 0
    else
      var l :| l in keys;
      Pending(props[l], source) + PendingOver(props, keys - {l}, source)
  }

  /** The sum of the sizes of the files stored under `keys`. */
  ghost function SizeOver(props: map<Locale, LoadedProperties>, keys: set<Locale>): nat
    requires keys <= props.Keys
    decreases |keys|
  {
    if keys == {} then 0
    else
      var l :| l in keys;
      props[l].size + SizeOver(props, keys - {l})
  }

  /** The sum does not depend on the order in which the keys are taken. */
  lemma {:induction false} PendingOverAny(props: map<Locale, LoadedProperties>, keys: set<Locale>, source: LocaleObject, k: Locale)
    requires keys <= props.Keys && k in keys
    ensures PendingOver(props, keys, source) == Pending(props[k], source) + PendingOver(props, keys - {k}, source)
    decreases |keys|
  {
    var l :| l in keys && PendingOver(props, keys, source) == Pending(props[l], source) + PendingOver(props, keys - {l}, source);
    if l != k {
      PendingOverAny(props, keys - {l}, source, k);
      PendingOverAny(props, keys - {k}, source, l);
      assert keys - {l} - {k} == keys - {k} - {l};
    }
  }

  /** The sum of sizes does not depend on the order in which the keys are taken. */
  lemma {:induction false} SizeOverAny(props: map<Locale, LoadedProperties>, keys: set<Locale>, k: Locale)
    requires keys <= props.Keys && k in keys
    ensures SizeOver(props, keys) == props[k].size + SizeOver(props, keys - {k})
    decreases |keys|
  {
    var l :| l in keys && SizeOver(props, keys) == props[l].size + SizeOver(props, keys - {l});
    if l != k {
      SizeOverAny(props, keys - {l}, k);
      SizeOverAny(props, keys - {k}, l);
      assert keys - {l} - {k} == keys - {k} - {l};
    }
  }

  /** When no file is stored under the object `source`, the count is the total size. */
  lemma {:induction false} PendingOverIsSize(props: map<Locale, LoadedProperties>, keys: set<Locale>, source: LocaleObject)
    requires keys <= props.Keys
    requires forall l | l in keys :: props[l].key != source
    ensures PendingOver(props, keys, source) == SizeOver(props, keys)
    decreases |keys|
  {
    if keys != {} {
      var l :| l in keys;
      PendingOverAny(props, keys, source, l);
      SizeOverAny(props, keys, l);
      PendingOverIsSize(props, keys - {l}, source);
    }
  }

  /** The count of entries to translate is the total size of the loaded properties files less
    * the size of the one stored under the source's own Locale object, if any: the files are
    * told apart by object identity, not by locale equality. */
  lemma PendingSkipsSourceObject(props: map<Locale, LoadedProperties>, source: LocaleObject)
    requires forall l | l in props :: props[l].key.value == l
    ensures PendingOver(props, props.Keys, source) ==
            SizeOver(props, props.Keys)
            - (if source.value in props && props[source.value].key == source then props[source.value].size else 0)
  {
    var s := source.value;
    if s in props && props[s].key == source {
      PendingOverAny(props, props.Keys, source, s);
      SizeOverAny(props, props.Keys, s);
      PendingOverIsSize(props, props.Keys - {s}, source);
    } else {
      PendingOverIsSize(props, props.Keys, source);
    }
  }

  // ---------------------------------------------------------------------------------------
  // The caption round trip
  // ---------------------------------------------------------------------------------------

  /** The opening tag holds no space. */
  lemma StartTagWithoutSpace()
    ensures forall i | 0 <= i < |HtmlStart| :: HtmlStart[i] != ' '
  {
  }

  /** The caption of a file leads back to the file name: cutting it at the first " (" and
    * removing the markup gives the name, when the name holds no " (" and no markup. */
  lemma LabelRoundTrip(name: string, locale: Locale, names: DisplayNames)
    requires NoMarkup(name) && !Contains(name, " (")
    ensures PureText(UILabel(name, locale, names)) == Success(name)
  {
    var caption := UILabel(name, locale, names);
    var a := HtmlStart + name;
    var b := caption[|a|..];
    assert caption == a + b;
    assert b[..2] == " (";
    CaptionCut(name, b);
  }

  /** The opening tag, a name without " (" and markup, and then anything that begins with
    * " (": the pure text is the name. */
  lemma CaptionCut(name: string, b: string)
    requires NoMarkup(name) && !Contains(name, " (")
    requires |b| >= 2 && b[..2] == " ("
    ensures PureText(HtmlStart + name + b) == Success(name)
  {
    var a := HtmlStart + name;
    var caption := a + b;
    StartTagWithoutSpace();
    NoOccurrenceInConcat(HtmlStart, name, " (");
    NoStraddle(a, b, " (");
    assert OccursAt(caption, " (", |a|) by { assert caption[|a|..|a| + 2] == b[..2]; }
    IndexOfFirst(caption, " (", |a|);
    FirstField(caption, " (");
    assert Fields(caption, " (")[0] == a;
    JavaSplitKeeps(caption, " (", 0);
    RemoveHtmlOfOpenedText(name);
  }

  // ---------------------------------------------------------------------------------------
  // The model
  // ---------------------------------------------------------------------------------------

  /** The data model of the translation service. */
  class PropertiesModel {
    /** All translation files of the bundle. */
    var translations: map<Locale, TranslationFile>
    /** The file translated from. */
    var sourceTranslation: TranslationFile
    /** The files that can be translated into. */
    var targetTranslation: map<Locale, TranslationFile>
    /** The files chosen to be translated into. */
    var targetTranslationSelected: map<Locale, TranslationFile>
    /** The loaded properties files. */
    var properties: map<Locale, LoadedProperties>
    /** The number of translated entries. */
    var translatedEntries: int

    /** The maps are keyed by locale, the candidates are files of the bundle and the selection
      * is made of candidates. */
    ghost predicate Valid()
      reads this
    {
      LocaleKeyed(translations) && LocaleKeyed(targetTranslation) && LocaleKeyed(targetTranslationSelected)
      && targetTranslation.Keys <= translations.Keys
      && (forall l | l in targetTranslationSelected ::
            l in targetTranslation && targetTranslationSelected[l] == targetTranslation[l])
      && (forall l | l in properties :: properties[l].key.value == l)
    }

    /** A model of a valid source file, holding only that file. */
    constructor (source: TranslationFile)
      requires source.IsValid()
      ensures Valid()
      ensures translations == map[source.locale := source] && sourceTranslation == source
      ensures targetTranslation == map[] && targetTranslationSelected == map[]
      ensures properties == map[] && translatedEntries == 0
    {
      translations := map[source.locale := source];
      sourceTranslation := source;
      targetTranslation := map[];
      targetTranslationSelected := map[];
      properties := map[];
      translatedEntries := 0;
    }

    /** new PropertiesModel(project, source): throws when the source is not a properties file. */
    static method Create(source: TranslationFile) returns (r: Result<PropertiesModel, ModelError>)
      ensures r.Failure? <==> !source.IsValid()
      ensures r.Failure? ==> r.error == InvalidSource
      ensures r.Success? ==> fresh(r.value) && r.value.Valid()
                             && r.value.translations == map[source.locale := source]
                             && r.value.sourceTranslation == source
                             && r.value.targetTranslation == map[] && r.value.targetTranslationSelected == map[]
    {
      if source.IsValid() {
        var m := new PropertiesModel(source);
        r := Success(m);
      } else {
        r := Failure(InvalidSource);
      }
    }

    /** collect: puts every file of the source's directory that is related to the source under
      * its locale; a directory that does not exist, or a file that throws, ends the scan, and the
      * files put before it stay. */
    method Collect(directory: Option<seq<FileRef>>, iso2: string -> bool) returns (r: Result<(), ModelError>)
      requires Valid()
      modifies this
      ensures Valid()
      ensures directory.None? ==> r == Failure(Crash(NullPointer)) && translations == old(translations)
      ensures directory.Some? ==>
                var scan := ScanFiles(directory.value, RelationTo(iso2, sourceTranslation), LocaleOf(iso2));
                (r.Failure? <==> scan.crashed)
                && (r.Failure? ==> r.error == Crash(NullPointer))
                && translations.Keys == old(translations).Keys + scan.found.Keys
                && (forall l | l in scan.found :: translations[l].file == scan.found[l])
                && (forall l | l in old(translations) && l !in scan.found :: translations[l] == old(translations)[l])
      ensures sourceTranslation == old(sourceTranslation) && targetTranslation == old(targetTranslation)
      ensures targetTranslationSelected == old(targetTranslationSelected) && properties == old(properties)
      ensures translatedEntries == old(translatedEntries)
    {
      if directory.None? {
        return Failure(Crash(NullPointer));
      }
      var found, crashed := ScanDirectory(directory.value, iso2);
      translations := translations + found;
      r := if crashed then Failure(Crash(NullPointer)) else Success(());
    }

    /** The loop of collect: the translation file of each file of the directory in order, put
      * under its locale when it is related to the source, until a file throws. */
    method ScanDirectory(files: seq<FileRef>, iso2: string -> bool)
      returns (found: map<Locale, TranslationFile>, crashed: bool)
      ensures var scan := ScanFiles(files, RelationTo(iso2, sourceTranslation), LocaleOf(iso2));
              crashed == scan.crashed && found.Keys == scan.found.Keys
              && forall l | l in found :: found[l].file == scan.found[l]
      ensures LocaleKeyed(found)
    {
      ghost var relation := RelationTo(iso2, sourceTranslation);
      ghost var localeOf := LocaleOf(iso2);
      found := map[];
      var i := 0;
      while i < |files|
        invariant 0 <= i <= |files|
        invariant LocaleKeyed(found)
        invariant !ScanFiles(files[..i], relation, localeOf).crashed
        invariant found.Keys == ScanFiles(files[..i], relation, localeOf).found.Keys
        invariant forall l | l in found :: found[l].file == ScanFiles(files[..i], relation, localeOf).found[l]
      {
        assert files[..i + 1][..i] == files[..i];
        assert files[..i + 1][i] == files[i];
        var target := new TranslationFile(files[i], iso2);
        var related := target.IsRelated(sourceTranslation);
        assert related == relation(files[i]);
        if related.Failure? {
          ScanStaysCrashed(files, relation, localeOf, i + 1);
          return found, true;
        }
        if related.value {
          assert target.locale == localeOf(files[i]);
          found := found[target.locale := target];
        }
        i := i + 1;
      }
      assert files[..i] == files;
      crashed := false;
    }

    /** getTargetTranslationByName: the translation file named by a list caption. */
    method TargetTranslationByName(caption: string) returns (r: Result<TranslationFile, ModelError>)
      ensures PureText(caption).Failure? ==> r == Failure(Crash(IndexOutOfBounds))
      ensures PureText(caption).Success? ==>
                (r.Success? <==> exists l | l in translations :: translations[l].file.name == PureText(caption).value)
      ensures PureText(caption).Success? && r.Failure? ==> r.error == NoSuchFile(caption)
      ensures r.Success? ==> PureText(caption).Success? && r.value in translations.Values
                             && r.value.file.name == PureText(caption).value
    {
      var parts := JavaSplit(caption, " (");
      if |parts| == 0 {
        return Failure(Crash(IndexOutOfBounds));
      }
      var value := RemoveHtml(parts[0]);
      var remaining := translations.Keys;
      while remaining != {}
        invariant remaining <= translations.Keys
        invariant forall l | l in translations && l !in remaining :: translations[l].file.name != value
        decreases |remaining|
      {
        var l :| l in remaining;
        if translations[l].file.name == value {
          return Success(translations[l]);
        }
        remaining := remaining - {l};
      }
      return Failure(NoSuchFile(caption));
    }

    /** sourceTranslationChanged: makes the file named by the caption the source, clears the
      * selection and adds every other file of the bundle to the candidates; when the caption
      * names no file, nothing changes. */
    method SourceTranslationChanged(caption: string) returns (r: Result<(), ModelError>)
      requires Valid()
      modifies this
      ensures Valid()
      ensures r.Success? <==> PureText(caption).Success?
                              && exists l | l in translations :: translations[l].file.name == PureText(caption).value
      ensures r.Failure? ==> sourceTranslation == old(sourceTranslation) && targetTranslation == old(targetTranslation)
                             && targetTranslationSelected == old(targetTranslationSelected)
      ensures r.Success? ==> sourceTranslation in translations.Values
                             && sourceTranslation.file.name == PureText(caption).value
                             && targetTranslationSelected == map[]
                             && targetTranslation == old(targetTranslation)
                                + Unnamed(translations, translations.Keys, sourceTranslation.file.name)
      ensures translations == old(translations) && properties == old(properties)
      ensures translatedEntries == old(translatedEntries)
    {
      var found := TargetTranslationByName(caption);
      if found.Failure? {
        return Failure(found.error);
      }
      var targets := CandidatesBesides(found.value.file.name);
      sourceTranslation := found.value;
      targetTranslationSelected := map[];
      targetTranslation := targets;
      r := Success(());
    }

    /** The candidates after the loop of sourceTranslationChanged: the current candidates, and
      * every translation file whose name differs from `name` under its locale. */
    method CandidatesBesides(name: string) returns (targets: map<Locale, TranslationFile>)
      requires Valid()
      ensures targets == targetTranslation + Unnamed(translations, translations.Keys, name)
      ensures LocaleKeyed(targets) && targets.Keys <= translations.Keys
    {
      targets := targetTranslation;
      var remaining := translations.Keys;
      while remaining != {}
        invariant remaining <= translations.Keys
        invariant targets == targetTranslation + Unnamed(translations, translations.Keys - remaining, name)
        decreases |remaining|
      {
        var l :| l in remaining;
        var target := translations[l];
        UnnamedStep(translations, translations.Keys - remaining, l, name);
        if name != target.file.name {
          UnionUpdate(targetTranslation, Unnamed(translations, translations.Keys - remaining, name), l, target);
          targets := targets[target.locale := target];
        }
        assert translations.Keys - (remaining - {l}) == (translations.Keys - remaining) + {l};
        remaining := remaining - {l};
      }
      CandidatesKeyed(targetTranslation, translations, name);
    }

    /** unselectTarget: removes every selected file with the given name. */
    method UnselectTarget(name: string)
      requires Valid()
      modifies this
      ensures Valid()
      ensures targetTranslationSelected == Unnamed(old(targetTranslationSelected), old(targetTranslationSelected).Keys, name)
      ensures translations == old(translations) && sourceTranslation == old(sourceTranslation)
      ensures targetTranslation == old(targetTranslation) && properties == old(properties)
      ensures translatedEntries == old(translatedEntries)
    {
      var selected := SelectionWithout(name);
      UnnamedKeyed(targetTranslationSelected, targetTranslationSelected.Keys, name);
      targetTranslationSelected := selected;
    }

    /** The loop of unselectTarget: the selection without the files named `name`. */
    method SelectionWithout(name: string) returns (selected: map<Locale, TranslationFile>)
      ensures selected == Unnamed(targetTranslationSelected, targetTranslationSelected.Keys, name)
    {
      selected := targetTranslationSelected;
      var remaining := selected.Keys;
      while remaining != {}
        invariant remaining <= targetTranslationSelected.Keys
        invariant selected == Kept(targetTranslationSelected, remaining, name)
        decreases |remaining|
      {
        var l :| l in remaining;
        KeptStep(targetTranslationSelected, remaining, l, name);
        if selected[l].file.name == name {
          selected := selected - {l};
        }
        remaining := remaining - {l};
      }
      assert selected == Unnamed(targetTranslationSelected, targetTranslationSelected.Keys, name);
    }

    /** selectTarget: adds every candidate file with the given name to the selection. */
    method SelectTarget(name: string)
      requires Valid()
      modifies this
      ensures Valid()
      ensures targetTranslationSelected == old(targetTranslationSelected) + Named(targetTranslation, targetTranslation.Keys, name)
      ensures translations == old(translations) && sourceTranslation == old(sourceTranslation)
      ensures targetTranslation == old(targetTranslation) && properties == old(properties)
      ensures translatedEntries == old(translatedEntries)
    {
      var selected := SelectionWith(name);
      NamedKeyed(targetTranslation, targetTranslation.Keys, name);
      targetTranslationSelected := selected;
    }

    /** The loop of selectTarget: the selection and every candidate named `name`. */
    method SelectionWith(name: string) returns (selected: map<Locale, TranslationFile>)
      ensures selected == targetTranslationSelected + Named(targetTranslation, targetTranslation.Keys, name)
    {
      selected := targetTranslationSelected;
      var remaining := targetTranslation.Keys;
      while remaining != {}
        invariant remaining <= targetTranslation.Keys
        invariant selected == targetTranslationSelected + Named(targetTranslation, targetTranslation.Keys - remaining, name)
        decreases |remaining|
      {
        var l :| l in remaining;
        NamedStep(targetTranslation, targetTranslation.Keys - remaining, l, name);
        if targetTranslation[l].file.name == name {
          UnionUpdate(targetTranslationSelected, Named(targetTranslation, targetTranslation.Keys - remaining, name), l, targetTranslation[l]);
          selected := selected[l := targetTranslation[l]];
        }
        assert targetTranslation.Keys - (remaining - {l}) == (targetTranslation.Keys - remaining) + {l};
        remaining := remaining - {l};
      }
      assert targetTranslation.Keys - remaining == targetTranslation.Keys;
    }

    /** getCountEntriesToTranslate: the number of entries of the loaded properties files, less
      * the file stored under the source's own Locale object. */
    method CountEntriesToTranslate() returns (count: int)
      ensures count == PendingOver(properties, properties.Keys, sourceTranslation.localeObject)
    {
      count := 0;
      var remaining := properties.Keys;
      while remaining != {}
        invariant remaining <= properties.Keys
        invariant count + PendingOver(properties, remaining, sourceTranslation.localeObject)
                  == PendingOver(properties, properties.Keys, sourceTranslation.localeObject)
        decreases |remaining|
      {
        var l :| l in remaining;
        PendingOverAny(properties, remaining, sourceTranslation.localeObject, l);
        if sourceTranslation.localeObject != properties[l].key {
          count := count + properties[l].size;
        }
        remaining := remaining - {l};
      }
    }
  }

  // ---------------------------------------------------------------------------------------
  // Map steps of the loops
  // ---------------------------------------------------------------------------------------

  /** Updating a union at a key updates its right operand. */
  lemma UnionUpdate(a: map<Locale, TranslationFile>, b: map<Locale, TranslationFile>, k: Locale, v: TranslationFile)
    ensures (a + b)[k := v] == a + b[k := v]
  {
  }

  /** Taking one more key into `Named`. */
  lemma NamedStep(m: map<Locale, TranslationFile>, done: set<Locale>, l: Locale, name: string)
    requires l in m && l !in done
    ensures Named(m, done + {l}, name) == if m[l].file.name == name then Named(m, done, name)[l := m[l]] else Named(m, done, name)
  {
  }

  /** Taking one more key into `Unnamed`. */
  lemma UnnamedStep(m: map<Locale, TranslationFile>, done: set<Locale>, l: Locale, name: string)
    requires l in m && l !in done
    ensures Unnamed(m, done + {l}, name) == if m[l].file.name != name then Unnamed(m, done, name)[l := m[l]] else Unnamed(m, done, name)
  {
  }

  /** The entries of `m` still to be looked at, and those already looked at whose file has
    * another name than `name`. */
  function Kept(m: map<Locale, TranslationFile>, pending: set<Locale>, name: string): map<Locale, TranslationFile> {
    map l | l in m && (l in pending || m[l].file.name != name) :: m[l]
  }

  /** Looking at one more key of `Kept`. */
  lemma KeptStep(m: map<Locale, TranslationFile>, pending: set<Locale>, l: Locale, name: string)
    requires l in pending && pending <= m.Keys
    ensures l in Kept(m, pending, name) && Kept(m, pending, name)[l] == m[l]
    ensures Kept(m, pending - {l}, name) ==
            if m[l].file.name == name then Kept(m, pending, name) - {l} else Kept(m, pending, name)
  {
  }

  /** The files of `m` with a name are a part of `m`. */
  lemma NamedKeyed(m: map<Locale, TranslationFile>, keys: set<Locale>, name: string)
    ensures forall l | l in Named(m, keys, name) :: l in m && Named(m, keys, name)[l] == m[l]
  {
  }

  /** The files of `m` without a name are a part of `m`. */
  lemma UnnamedKeyed(m: map<Locale, TranslationFile>, keys: set<Locale>, name: string)
    ensures forall l | l in Unnamed(m, keys, name) :: l in m && Unnamed(m, keys, name)[l] == m[l]
  {
  }

  /** Adding the files of a bundle without a name to candidates of the bundle keeps both
    * keyed by locale and within the bundle. */
  lemma CandidatesKeyed(targets: map<Locale, TranslationFile>, bundle: map<Locale, TranslationFile>, name: string)
    requires LocaleKeyed(targets) && LocaleKeyed(bundle) && targets.Keys <= bundle.Keys
    ensures LocaleKeyed(targets + Unnamed(bundle, bundle.Keys, name))
    ensures (targets + Unnamed(bundle, bundle.Keys, name)).Keys <= bundle.Keys
  {
  }

  // ---------------------------------------------------------------------------------------
  // Selection laws
  // ---------------------------------------------------------------------------------------

  /** Selecting a name that no candidate has changes nothing. */
  lemma SelectUnknownName(selected: map<Locale, TranslationFile>, targets: map<Locale, TranslationFile>, name: string)
    requires forall l | l in targets :: targets[l].file.name != name
    ensures selected + Named(targets, targets.Keys, name) == selected
  {
    assert Named(targets, targets.Keys, name) == map[];
  }

  /** Selecting the same name twice selects what selecting it once does. */
  lemma SelectIdempotent(selected: map<Locale, TranslationFile>, targets: map<Locale, TranslationFile>, name: string)
    ensures selected + Named(targets, targets.Keys, name) + Named(targets, targets.Keys, name)
            == selected + Named(targets, targets.Keys, name)
  {
  }

  /** Unselecting a name that no selected file has changes nothing. */
  lemma UnselectUnknownName(selected: map<Locale, TranslationFile>, name: string)
    requires forall l | l in selected :: selected[l].file.name != name
    ensures Unnamed(selected, selected.Keys, name) == selected
  {
  }

  /** Unselecting a name after selecting it leaves the selection as it was, less any file of
    * that name: the other selected files are kept. */
  lemma SelectThenUnselect(selected: map<Locale, TranslationFile>, targets: map<Locale, TranslationFile>, name: string)
    requires forall l | l in selected :: l in targets && selected[l] == targets[l]
    ensures var s := selected + Named(targets, targets.Keys, name);
            Unnamed(s, s.Keys, name) == Unnamed(selected, selected.Keys, name)
  {
  }
}
