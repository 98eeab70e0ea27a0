/** The browser's choice of the text to read aloud from an analysis result:
    the caption when there is one, the recognised text otherwise. */
module Caption {
  import opened JsStrings
  import opened Maybe
  import opened Json

  /** `data?.captionResult?.text || data?.caption?.text || ""` */
  function CaptionOf(data: Json): (r: Json)
    ensures Truthy(Get(Get(data, "captionResult"), "text")) ==> r == Get(Get(data, "captionResult"), "text")
    ensures !Truthy(Get(Get(data, "captionResult"), "text")) && Truthy(Get(Get(data, "caption"), "text")) ==> r == Get(Get(data, "caption"), "text")
    ensures !Truthy(r) <==> r == Str("")
  {
    Or(Or(Get(Get(data, "captionResult"), "text"), Get(Get(data, "caption"), "text")), Str(""))
  }

  /** `data?.readResult?.content || data?.ocrResult?.text || ""` before the
      trim. */
  function RawOcrOf(data: Json): (r: Json)
    ensures Truthy(Get(Get(data, "readResult"), "content")) ==> r == Get(Get(data, "readResult"), "content")
    ensures !Truthy(Get(Get(data, "readResult"), "content")) && Truthy(Get(Get(data, "ocrResult"), "text")) ==> r == Get(Get(data, "ocrResult"), "text")
    ensures !Truthy(r) <==> r == Str("")
  {
    Or(Or(Get(Get(data, "readResult"), "content"), Get(Get(data, "ocrResult"), "text")), Str(""))
  }

  /** `extractText(data)`: the caption, untrimmed, when it is truthy, else the
      trimmed recognised text. The recognised text is trimmed first in any
      case, so a truthy one that is not a string throws even when there is a
      caption. */
  function ExtractText(data: Json): (r: Completion<Json>)
    ensures r.Throws? <==> !RawOcrOf(data).Str?
    ensures r.Returns? && Truthy(CaptionOf(data)) ==> r.value == CaptionOf(data)
    ensures r.Returns? && !Truthy(CaptionOf(data)) ==> r.value == Str(Trim(RawOcrOf(data).s))
  {
    var caption := CaptionOf(data);
    match RawOcrOf(data)
    case Str(s) =>
      var ocr := Str(Trim(s));
      // caption || ocr || `${caption} ${ocr}`.trim(): when both are falsy,
      // the caption is "" and the ocr is "", so the last operand is "" too.
      if Truthy(caption) then Returns(caption)
      else if Truthy(ocr) then Returns(ocr)
      else Returns(Str(Trim(ToStr(caption) + " " + ToStr(ocr))))
    case _ => Throws
  }

  /** A result that is not the caption is the trimmed recognised text, and
      so has no surrounding whitespace. */
  lemma ResultIsCaptionOrTrimmedOcr(data: Json)
    requires ExtractText(data).Returns?
    ensures var r := ExtractText(data).value;
      r == CaptionOf(data) || (r.Str? && r.s == Trim(RawOcrOf(data).s) && !(|r.s| > 0 && (IsSpace(r.s[0]) || IsSpace(r.s[|r.s| - 1]))))
  {
  }

  /** Without any text the result is the empty string. */
  lemma NoTextGivesEmpty()
    ensures ExtractText(Obj(map[])) == Returns(Str(""))
  {
    EmptyObjectHasNoText();
    BlankTrims();
  }

  lemma EmptyObjectHasNoText()
    ensures CaptionOf(Obj(map[])) == Str("") && RawOcrOf(Obj(map[])) == Str("")
  {
  }

  lemma BlankTrims()
    ensures Trim([]) == [] && Trim(" ") == []
  {
    TrimAllSpaces([]);
    TrimAllSpaces(" ");
  }

  /** The caption is kept exactly, surrounding spaces included. */
  lemma CaptionNotTrimmed(c: String)
    requires c != []
    ensures ExtractText(Obj(map["caption" := Obj(map["text" := Str(c)])])) == Returns(Str(c))
  {
  }
}
