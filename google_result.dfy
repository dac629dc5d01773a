/**
 * GoogleTranslationResult: the answer of the Google translation endpoint, a list of
 * translated sentences whose texts are joined into the translation.
 */
module GoogleResults {
  import opened Wrappers

  /** One translated sentence; a text absent from the answer is null. */
  datatype Sentence = Sentence(translation: Option<string>, original: Option<string>, backend: int)

  /** The deserialised answer; a list absent from the answer is null. */
  datatype TranslationResult = TranslationResult(sentences: Option<seq<Sentence>>, source: Option<string>)

  /** The providers a translation result can come from. */
  datatype ProviderType = GoogleFreeTranslateApi

  /** What string concatenation makes of a sentence's text: a null text reads "null". */
  function SentenceText(s: Sentence): string {
    match s.translation
    case Some(t) => t
    case None => "null"
  }

  /** The sentence texts joined in order with an empty separator. */
  function Joined(sentences: seq<Sentence>): string {
    if sentences == [] then "" else SentenceText(sentences[0]) + Joined(sentences[1..])
  }

  /** The total length of the sentence texts. */
  function TextLength(sentences: seq<Sentence>): nat {
    if sentences == [] then 0 else |SentenceText(sentences[0])| + TextLength(sentences[1..])
  }

  /** getTranslation: the joined sentence texts; a null sentence list throws. */
  function GetTranslation(r: TranslationResult): (t: Result<string, Fault>)
    ensures r.sentences.None? <==> t.Failure?
    ensures t.Failure? ==> t.error == NullPointer
    ensures r.sentences.Some? ==> t == Success(Joined(r.sentences.value))
  {
    match r.sentences
    case None => Failure(NullPointer)
    case Some(ss) => Success(Joined(ss))
  }

  /** getProviderType: every result comes from the free Google endpoint. */
  function GetProviderType(r: TranslationResult): ProviderType {
    GoogleFreeTranslateApi
  }

  /** No sentences give the empty translation. */
  lemma JoinedEmpty()
    ensures Joined([]) == ""
  {
  }

  /** Joining two lists of sentences one after the other is joining each and concatenating. */
  lemma {:induction false} JoinedAppend(a: seq<Sentence>, b: seq<Sentence>)
    ensures Joined(a + b) == Joined(a) + Joined(b)
    decreases |a|
  {
    if a == [] {
      assert a + b == b;
    } else {
      assert (a + b)[1..] == a[1..] + b;
      JoinedAppend(a[1..], b);
    }
  }

  /** The length of the translation is the sum of the lengths of the sentence texts. */
  lemma {:induction false} JoinedLength(sentences: seq<Sentence>)
    ensures |Joined(sentences)| == TextLength(sentences)
    decreases |sentences|
  {
    if sentences != [] {
      JoinedLength(sentences[1..]);
    }
  }

  /** Every sentence's text stands in the translation right after the texts before it. */
  lemma JoinedAt(sentences: seq<Sentence>, i: nat)
    requires i < |sentences|
    ensures Joined(sentences) == Joined(sentences[..i]) + SentenceText(sentences[i]) + Joined(sentences[i + 1..])
  {
    var before, after := sentences[..i], sentences[i..];
    assert sentences == before + after;
    JoinedAppend(before, after);
    assert after[0] == sentences[i] && after[1..] == sentences[i + 1..];
    assert Joined(after) == SentenceText(sentences[i]) + Joined(sentences[i + 1..]);
  }

  /** A sentence with a null text contributes the four letters "null". */
  lemma NullTextReadsNull(original: Option<string>, backend: int)
    ensures Joined([Sentence(None, original, backend)]) == "null"
  {
    assert [Sentence(None, original, backend)][1..] == [];
  }
}
