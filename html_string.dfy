/**
 * HTMLString: the small HTML builder behind the labels of the plugin's lists, and the
 * function that strips its markup again.
 */
module HtmlStrings {
  import opened JavaText

  const HtmlStart := "<html>"
  const HtmlEnd := "</html>"
  const HtmlStyleEnd := "\">"
  const HtmlSpanStart := "<span style=\"color:"
  const HtmlSpanEnd := "</span>"

  /** The named colours of the builder (a subset of the Material Design palette). */
  datatype Color =
    | Red50 | Red100 | Red200 | Red300 | Red400 | Red500 | Red600 | Red700 | Red800 | Red900
    | Pink50 | Pink100 | Pink200 | Pink300 | Pink400 | Pink500 | Pink600 | Pink700 | Pink800 | Pink900
    | GreyBlue400
    | Orange
  {
    /** The colour as a CSS value. */
    function Rgb(): string {
      match this
      case Red50 => "#ffebee"
      case Red100 => "#ffcdd2"
      case Red200 => "#ef9a9a"
      case Red300 => "#e57373"
      case Red400 => "#ef5350"
      case Red500 => "#f44336"
      case Red600 => "#e53935"
      case Red700 => "#d32f2f"
      case Red800 => "#c62828"
      case Red900 => "#b71c1c"
      case Pink50 => "#fce4ec"
      case Pink100 => "#f8bbd0"
      case Pink200 => "#f48fb1"
      case Pink300 => "#f06292"
      case Pink400 => "#ec407a"
      case Pink500 => "#e91e63"
      case Pink600 => "#d81b60"
      case Pink700 => "#c2185b"
      case Pink800 => "#ad1457"
      case Pink900 => "#880e4f"
      case GreyBlue400 => "#78909c"
      case Orange => "#e36009"
    }
  }

  /** A coloured span around `value`. */
  function Span(rgb: string, value: string): string {
    HtmlSpanStart + rgb + HtmlStyleEnd + value + HtmlSpanEnd
  }

  /** The builder content after appending plain text: blank text is ignored. */
  function WithText(content: string, value: string): string {
    if IsBlank(value) then content else content + value
  }

  /** The builder content after appending a coloured span: blank text is ignored. */
  function WithSpan(content: string, rgb: string, value: string): string {
    if IsBlank(value) then content else content + Span(rgb, value)
  }

  /** The text holds none of the builder's markup strings. */
  predicate NoMarkup(s: string) {
    !Contains(s, HtmlStart) && !Contains(s, HtmlSpanStart) && !Contains(s, HtmlStyleEnd)
    && !Contains(s, HtmlSpanEnd) && !Contains(s, HtmlEnd)
  }

  /** removeHtml: deletes each markup string in turn, every occurrence of one in a single
    * left-to-right pass before moving to the next. */
  function RemoveHtml(text: string): string {
    var r1 := RemoveAll(text, HtmlStart);
    var r2 := RemoveAll(r1, HtmlSpanStart);
    var r3 := RemoveAll(r2, HtmlStyleEnd);
    var r4 := RemoveAll(r3, HtmlSpanEnd);
    RemoveAll(r4, HtmlEnd)
  }

  /** An HTML builder: the content so far, which always begins with the opening tag. */
  class HtmlString {
    var builder: string

    ghost predicate Valid()
      reads this
    {
      HtmlStart <= builder
    }

    /** An empty document. */
    constructor ()
      ensures Valid() && builder == HtmlStart
    {
      builder := HtmlStart;
    }

    /** A document holding `value` unless it is blank. */
    constructor FromText(value: string)
      ensures Valid() && builder == WithText(HtmlStart, value)
    {
      builder := HtmlStart;
      if !IsBlank(value) {
        builder := builder + value;
      }
    }

    /** A document holding `value` in a span of colour `rgb` unless it is blank. */
    constructor FromRgb(rgb: string, value: string)
      ensures Valid() && builder == WithSpan(HtmlStart, rgb, value)
    {
      builder := HtmlStart;
      if !IsBlank(value) {
        builder := builder + (HtmlSpanStart + rgb + HtmlStyleEnd + value + HtmlSpanEnd);
      }
    }

    /** A document holding `value` in a span of the named colour unless it is blank. */
    constructor FromColor(color: Color, value: string)
      ensures Valid() && builder == WithSpan(HtmlStart, color.Rgb(), value)
    {
      builder := HtmlStart;
      if !IsBlank(value) {
        var rgb := color.Rgb();
        builder := builder + (HtmlSpanStart + rgb + HtmlStyleEnd + value + HtmlSpanEnd);
      }
    }

    /** Appends `value` unless it is blank. */
    method Append(value: string)
      requires Valid()
      modifies this
      ensures Valid() && builder == WithText(old(builder), value)
      ensures IsBlank(value) ==> builder == old(builder)
      ensures !IsBlank(value) ==> builder[..|old(builder)|] == old(builder) && builder[|old(builder)|..] == value
    {
      if !IsBlank(value) {
        builder := builder + value;
      }
    }

    /** Appends `value` in a span of colour `rgb` unless it is blank. */
    method AppendRgb(rgb: string, value: string)
      requires Valid()
      modifies this
      ensures Valid() && builder == WithSpan(old(builder), rgb, value)
      ensures IsBlank(value) ==> builder == old(builder)
      ensures !IsBlank(value) ==> builder == old(builder) + Span(rgb, value)
    {
      if !IsBlank(value) {
        builder := builder + (HtmlSpanStart + rgb + HtmlStyleEnd + value + HtmlSpanEnd);
      }
    }

    /** Appends `value` in a span of the named colour unless it is blank. */
    method AppendColor(color: Color, value: string)
      requires Valid()
      modifies this
      ensures Valid() && builder == WithSpan(old(builder), color.Rgb(), value)
      ensures IsBlank(value) ==> builder == old(builder)
      ensures !IsBlank(value) ==> builder == old(builder) + Span(color.Rgb(), value)
    {
      if !IsBlank(value) {
        var rgb := color.Rgb();
        builder := builder + (HtmlSpanStart + rgb + HtmlStyleEnd + value + HtmlSpanEnd);
      }
    }

    /** The finished document: the content followed by the closing tag. */
    function ToString(): (r: string)
      reads this
      requires Valid()
      ensures HtmlStart <= r && |r| == |builder| + |HtmlEnd|
      ensures r[..|builder|] == builder && r[|builder|..] == HtmlEnd
    {
      builder + HtmlEnd
    }
  }

  /** The closing tag contains none of the other markup strings. */
  lemma EndTagHoldsNoOtherMarkup()
    ensures !Contains(HtmlEnd, HtmlStart) && !Contains(HtmlEnd, HtmlSpanStart)
    ensures !Contains(HtmlEnd, HtmlStyleEnd) && !Contains(HtmlEnd, HtmlSpanEnd)
  {
    assert HtmlEnd[0..6][1] != HtmlStart[1];
    assert HtmlEnd[1..7][0] != HtmlStart[0];
    assert HtmlEnd[0..7][2] != HtmlSpanEnd[2];
    forall i | 0 <= i <= |HtmlEnd| - |HtmlStyleEnd|
      ensures !OccursAt(HtmlEnd, HtmlStyleEnd, i)
    {
      assert HtmlEnd[i..i + 2][0] != HtmlStyleEnd[0];
    }
  }

  /** A markup string that the text and the end tag lack, and whose later positions hold no
    * '<', is absent from the text followed by the end tag, so removing it changes nothing. */
  lemma RemoveAbsentBeforeEndTag(text: string, pat: string)
    requires |pat| > 0 && !Contains(text, pat) && !Contains(HtmlEnd, pat)
    requires forall k | 1 <= k < |pat| :: pat[k] != '<'
    ensures RemoveAll(text + HtmlEnd, pat) == text + HtmlEnd
  {
    NoStraddle(text, HtmlEnd, pat);
    RemoveAllAppend(text, HtmlEnd, pat);
    RemoveAllAbsent(HtmlEnd, pat);
  }

  /** Text without markup survives being wrapped in the document tags and stripped again:
    * for text that is not blank, removeHtml(new HTMLString(text).toString()) is the text. */
  lemma RemoveHtmlOfDocument(text: string)
    requires NoMarkup(text)
    ensures RemoveHtml(HtmlStart + text + HtmlEnd) == text
  {
    var s := HtmlStart + text + HtmlEnd;
    assert s == HtmlStart + (text + HtmlEnd);
    RemoveAllLeading(HtmlStart, text + HtmlEnd);
    EndTagHoldsNoOtherMarkup();
    RemoveAbsentBeforeEndTag(text, HtmlStart);
    var r1 := RemoveAll(s, HtmlStart);
    assert r1 == text + HtmlEnd;
    RemoveAbsentBeforeEndTag(text, HtmlSpanStart);
    RemoveAbsentBeforeEndTag(text, HtmlStyleEnd);
    RemoveAbsentBeforeEndTag(text, HtmlSpanEnd);
    NoStraddle(text, HtmlEnd, HtmlEnd);
    RemoveAllAppend(text, HtmlEnd, HtmlEnd);
    RemoveAllLeading(HtmlEnd, "");
    assert HtmlEnd + "" == HtmlEnd;
    assert text + "" == text;
  }

  /** Text without markup after the opening tag alone comes back unchanged. */
  lemma RemoveHtmlOfOpenedText(text: string)
    requires NoMarkup(text)
    ensures RemoveHtml(HtmlStart + text) == text
  {
    RemoveAllLeading(HtmlStart, text);
    RemoveAllAbsent(text, HtmlStart);
    RemoveAllAbsent(text, HtmlSpanStart);
    RemoveAllAbsent(text, HtmlStyleEnd);
    RemoveAllAbsent(text, HtmlSpanEnd);
    RemoveAllAbsent(text, HtmlEnd);
  }

  /** Each value-taking constructor builds the document that the empty constructor followed
    * by the matching append builds. */
  method ConstructorsMatchAppend(color: Color, rgb: string, value: string) returns (same: bool)
    ensures same
  {
    var text := new HtmlString.FromText(value);
    var textAppended := new HtmlString();
    textAppended.Append(value);
    var span := new HtmlString.FromRgb(rgb, value);
    var spanAppended := new HtmlString();
    spanAppended.AppendRgb(rgb, value);
    var named := new HtmlString.FromColor(color, value);
    var namedAppended := new HtmlString();
    namedAppended.AppendColor(color, value);
    same := text.ToString() == textAppended.ToString() && span.ToString() == spanAppended.ToString()
            && named.ToString() == namedAppended.ToString();
  }

  /** The plain-text round trip of the builder: stripping the markup of a document built from
    * `value` gives back `value`, or the empty string when `value` is blank. */
  lemma TextDocumentRoundTrip(value: string)
    requires NoMarkup(value)
    ensures RemoveHtml(WithText(HtmlStart, value) + HtmlEnd) == if IsBlank(value) then "" else value
  {
    if IsBlank(value) {
      assert !Contains("", HtmlStart) && !Contains("", HtmlSpanStart) && !Contains("", HtmlStyleEnd);
      assert !Contains("", HtmlSpanEnd) && !Contains("", HtmlEnd);
      RemoveHtmlOfDocument("");
      assert HtmlStart + "" + HtmlEnd == HtmlStart + HtmlEnd;
    } else {
      RemoveHtmlOfDocument(value);
    }
  }

  /** Each markup string is removed in one pass, so a removal can join the pieces of a new
    * markup string that stays: removeHtml does not always yield text without markup. */
  lemma RemoveHtmlLeavesJoinedMarkup()
    ensures RemoveHtml("<ht<html>ml>") == HtmlStart
  {
    FirstPassJoinsStartTag();
    StartTagSurvivesLaterPasses();
  }

  /** Removing the opening tag from "<ht<html>ml>" joins a new opening tag. */
  lemma FirstPassJoinsStartTag()
    ensures RemoveAll("<ht<html>ml>", HtmlStart) == HtmlStart
  {
    var s := "<ht<html>ml>";
    assert s[3..][..6] == HtmlStart;
    assert s[3..][6..] == "ml>";
    assert RemoveAll("ml>", HtmlStart) == "ml>";
    assert RemoveAll(s[3..], HtmlStart) == "ml>";
    assert s[2..][..6] != HtmlStart by { assert s[2..][..6][0] != HtmlStart[0]; }
    assert RemoveAll(s[2..], HtmlStart) == "tml>" by { assert s[2..][1..] == s[3..]; }
    assert s[1..][..6] != HtmlStart by { assert s[1..][..6][0] != HtmlStart[0]; }
    assert RemoveAll(s[1..], HtmlStart) == "html>" by { assert s[1..][1..] == s[2..]; }
    assert s[..6] != HtmlStart by { assert s[..6][3] != HtmlStart[3]; }
    assert RemoveAll(s, HtmlStart) == "<html>";
  }

  /** The opening tag holds none of the other markup strings, so the later passes keep it. */
  lemma StartTagSurvivesLaterPasses()
    ensures RemoveAll(RemoveAll(RemoveAll(RemoveAll(HtmlStart, HtmlSpanStart), HtmlStyleEnd), HtmlSpanEnd), HtmlEnd) == HtmlStart
  {
    assert RemoveAll(HtmlStart, HtmlSpanStart) == HtmlStart;
    RemoveAllAbsent(HtmlStart, HtmlStyleEnd) by {
      forall i | 0 <= i <= |HtmlStart| - |HtmlStyleEnd|
        ensures !OccursAt(HtmlStart, HtmlStyleEnd, i)
      {
        assert HtmlStart[i..i + 2][0] != HtmlStyleEnd[0];
      }
    }
    RemoveAllAbsent(HtmlStart, HtmlSpanEnd);
    RemoveAllAbsent(HtmlStart, HtmlEnd);
  }
}
