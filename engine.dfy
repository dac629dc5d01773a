/**
 * The translation-engine types the plugin borrows from its i18n library: request entries,
 * requests, processes and the exception a processor throws. The library's own code is not
 * part of this model; what the plugin asks of it is given as functions.
 */
module Engine {
  import opened Wrappers
  import opened TranslationFiles
  import opened GoogleResults

  /** A property to translate: its key, its source text, whether it needs translating, and
    * the result and time stamp a successful translation records. */
  datatype Entry = Entry(key: string, source: string, requireTranslation: bool,
                         result: Option<TranslationResult>, timestamp: Option<nat>)

  /** A request to translate the entries of a source file into a target file. */
  datatype Request = Request(source: TranslationFile, target: TranslationFile,
                             sourceLocale: Locale, targetLocale: Locale, entries: seq<Entry>)

  /** A translation process: a request and whether it has been marked translated. */
  datatype Process = Process(request: Request, translated: bool)

  /** The checked exception a processor throws: with a message, or wrapping a cause. */
  datatype TranslationException =
    | Reason(reason: string)
    | CausedBy(cause: Cause)

  /** What a wrapped exception was caused by. */
  datatype Cause =
    | Translation(inner: TranslationException)   // a translation exception thrown inside the processor
    | Io                                         // the request could not be sent or its answer read
    | Deserialization                            // the answer could not be deserialised

  /** The library's queries on a request: whether it needs processing, how many of its
    * entries need translating, and the target document text it rebuilds, which can throw. */
  datatype Library = Library(requireProcessing: Request -> bool, count: Request -> nat,
                             document: Request -> Result<string, TranslationException>)

  /** A translation processor: given the source and target locales of a request, translates
    * one entry, returning the updated entry or throwing. */
  type Processor = (Locale, Locale, Entry) -> Result<Entry, TranslationException>

  /** setResult: records the result and the time of the translation. */
  function SetResult(e: Entry, r: TranslationResult, now: nat): (e': Entry)
    ensures e'.key == e.key && e'.source == e.source && e'.requireTranslation == e.requireTranslation
    ensures e'.result == Some(r) && e'.timestamp == Some(now)
  {
    e.(result := Some(r), timestamp := Some(now))
  }
}
