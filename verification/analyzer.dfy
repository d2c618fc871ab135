/**
 The standalone standard-vehicle classifier: like the hook's metadata-only
 classifier, but slots 3 and 4 additionally require the read's text to look
 like the fourth or fifth code of a certificate.
 */
module Analyzer {
  import opened Fields
  import opened Classify

  /** A full-width digit, U+FF10 ('０') to U+FF19 ('９'). */
  predicate IsFullWidthDigit(c: char)
  {
    '\U{FF10}' <= c <= '\U{FF19}'
  }

  /** The fourth code: exactly two fields, the first being "2". Equivalently,
      the text is "2/" followed by slash-free text. */
  function Is4thQr(text: string): (yes: bool)
    ensures yes <==> |text| >= 2 && text[..2] == "2/" && Slash !in text[2..]
  {
    FourthShape(text);
    var splited := Split(text);
    |splited| == 2 && splited[0] == "2"
  }

  lemma FourthShape(text: string)
    ensures (|Split(text)| == 2 && Split(text)[0] == "2") <==>
      |text| >= 2 && text[..2] == "2/" && Slash !in text[2..]
  {
    FirstFieldIs(text, "2");
    SplitFields(text);
    if |text| >= 2 && text[..2] == "2/" {
      assert text == text[..2] + text[2..];
      CountCharAppend(text[..2], text[2..], Slash);
      CountCharZero(text[2..], Slash);
    }
  }

  /** The fifth code: exactly five fields, the first being one full-width
      digit. Equivalently, the text is a full-width digit, a slash, and
      exactly three more slashes after that. */
  function Is5thQr(text: string): (yes: bool)
    ensures yes <==>
      |text| >= 2 && IsFullWidthDigit(text[0]) && text[1] == Slash && CountChar(text, Slash) == 4
  {
    FifthShape(text);
    var splited := Split(text);
    |splited| == 5 && |splited[0]| == 1 && IsFullWidthDigit(splited[0][0])
  }

  lemma FifthShape(text: string)
    ensures (|Split(text)| == 5 && |Split(text)[0]| == 1 && IsFullWidthDigit(Split(text)[0][0])) <==>
      |text| >= 2 && IsFullWidthDigit(text[0]) && text[1] == Slash && CountChar(text, Slash) == 4
  {
    var first := Split(text)[0];
    SplitFields(text);
    if |text| >= 1 && text[0] != Slash {
      FirstFieldIs(text, [text[0]]);
      if |first| == 1 && IsFullWidthDigit(first[0]) {
        FirstFieldIs(text, first);
      }
    }
  }

  /** The guarded standard classifier. */
  function DetectQrCodeIndex(read: ReadResult): (index: int)
    ensures -1 <= index <= 4
    ensures !read.isValid ==> index == -1
    ensures 0 <= index <= 2 ==> read.isValid && read.sequenceSize == 3 && read.sequenceIndex == index
    ensures read.isValid && read.sequenceSize == 3 && 0 <= read.sequenceIndex <= 2 ==>
      index == read.sequenceIndex
    ensures index == 3 <==>
      read.isValid && read.sequenceSize == 2 && read.sequenceIndex == 0 && Is4thQr(read.text)
    ensures index == 4 <==>
      read.isValid && read.sequenceSize == 2 && read.sequenceIndex == 1 && Is5thQr(read.text)
  {
    if !read.isValid then -1
    else if read.sequenceSize == 3 && read.sequenceIndex == 0 then 0
    else if read.sequenceSize == 3 && read.sequenceIndex == 1 then 1
    else if read.sequenceSize == 3 && read.sequenceIndex == 2 then 2
    else if read.sequenceSize == 2 && read.sequenceIndex == 0 && Is4thQr(read.text) then 3
    else if read.sequenceSize == 2 && read.sequenceIndex == 1 && Is5thQr(read.text) then 4
    else -1
  }

  /** The guarded classifier refines the hook's metadata-only one: every slot
      it assigns is the slot the hook assigns, it only ever rejects more, and
      the reads it rejects beyond the hook are exactly the 2-part reads that
      fail their content guard. */
  lemma GuardedRefinesNormal(read: ReadResult)
    requires read.isValid
    ensures DetectQrCodeIndex(read) != -1 ==>
      DetectQrCodeIndex(read) == DetectIndexForNormalVehicle(read)
    ensures DetectIndexForNormalVehicle(read) == -1 ==> DetectQrCodeIndex(read) == -1
    ensures DetectQrCodeIndex(read) == -1 && DetectIndexForNormalVehicle(read) != -1 <==>
      read.sequenceSize == 2 &&
      ((read.sequenceIndex == 0 && !Is4thQr(read.text)) ||
       (read.sequenceIndex == 1 && !Is5thQr(read.text)))
  {
  }

  /** The fourth code of a certificate as assembled from fields: "2" and one
      more slash-free field. */
  lemma {:induction false} Is4thQrOfJoin(fields: seq<string>)
    requires |fields| >= 1 && SlashFree(fields)
    ensures Is4thQr(Join(fields)) <==> |fields| == 2 && fields[0] == "2"
  {
    JoinSplit(fields);
  }

  /** The fifth code of a certificate as assembled from fields: a full-width
      digit and four more slash-free fields. */
  lemma {:induction false} Is5thQrOfJoin(fields: seq<string>)
    requires |fields| >= 1 && SlashFree(fields)
    ensures Is5thQr(Join(fields)) <==>
      |fields| == 5 && |fields[0]| == 1 && IsFullWidthDigit(fields[0][0])
  {
    JoinSplit(fields);
  }
}
